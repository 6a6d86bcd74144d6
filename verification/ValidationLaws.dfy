/** Which posted messages are accepted and what becomes of them, said about the fields of the request. */
module ValidationLaws {
  import opened Prelude
  import opened Utf16
  import opened Validation
  import opened RowSize

  // ---- Text ---------------------------------------------------------------

  /** `Ascii` gives the codes of its characters. */
  lemma AsciiIs(s: string, i: nat)
    requires i < |s| && s[i] as int < 128
    ensures Ascii(s)[i] == s[i] as int
  {
  }

  predicate White(t: Text) { forall k :: 0 <= k < |t| ==> t[k] in SPACE_CODES }

  /** A trimmed text is the part between two stretches of white space, and neither starts nor ends with any. */
  predicate TrimmedTo(s: Text, t: Text) {
    exists i, j :: 0 <= i <= j <= |s| && s[i..j] == t && White(s[..i]) && White(s[j..]) &&
                   (t != [] ==> t[0] !in SPACE_CODES && t[|t| - 1] !in SPACE_CODES)
  }

  lemma WhiteIff(t: Text)
    ensures White(t) <==> AllDropped(t, IsBlank)
  {
    forall k | 0 <= k < |t| ensures t[k] in SPACE_CODES <==> IsBlank(t[k]) {
      SpaceCodeIff(t[k]);
    }
  }

  lemma TrimTextIs(s: Text)
    ensures TrimmedTo(s, TrimText(s))
  {
    var t := TrimText(s);
    var i := DropFrontCuts(s, IsBlank);
    var k := DropBackCuts(s[i..], IsBlank);
    var j := i + k;
    WhiteIff(s[..i]);
    WhiteIff(s[j..]);
    assert s[j..] == s[i..][k..] && s[i..j] == s[i..][..k];
    if t != [] {
      assert t[0] == s[i..][0];
      SpaceCodeIff(t[0]);
      SpaceCodeIff(t[|t| - 1]);
    }
  }

  // ---- Single fields ------------------------------------------------------

  /** An optional text within its cap and free of NUL, trimmed; missing ones and blank ones are the same. */
  lemma OptionalStringIs(f: Field, name: string, cap: nat)
    ensures OptionalString(f, name, cap) ==
              match f
              case Absent => Ok([])
              case Other => Err(Invalid(name))
              case Str(s) => if |TrimText(s)| <= cap && 0 !in TrimText(s) then Ok(TrimText(s)) else Err(Invalid(name))
  {
  }

  /** A required text: the same, but not blank. */
  lemma NonEmptyIs(f: Field, name: string, cap: nat)
    ensures NonEmpty(f, name, cap).Ok? <==> f.Str? && 1 <= |TrimText(f.text)| <= cap && 0 !in TrimText(f.text)
    ensures NonEmpty(f, name, cap).Ok? ==> NonEmpty(f, name, cap).value == TrimText(f.text)
  {
  }

  predicate TagField(f: Field) { f.Str? && |f.text| <= 256 && 0 !in f.text }

  lemma {:induction false} TagTextsIs(items: seq<Field>)
    ensures TagTexts(items).Ok? <==> forall k :: 0 <= k < |items| ==> TagField(items[k])
    ensures TagTexts(items).Ok? ==> |TagTexts(items).value| == |items| && forall k :: 0 <= k < |items| ==>
            TagTexts(items).value[k] == items[k].text
  {
    if items == [] {
    } else {
      TagTextsIs(items[1..]);
      assert forall k :: 0 < k < |items| ==> items[k] == items[1..][k - 1];
    }
  }

  /** Tags: missing, or a list of at most 64 texts, each of at most 256 units without NUL, kept as they are. */
  lemma ValidTagsIs(t: TagsField)
    ensures t.NoTags? ==> ValidTags(t) == Ok([])
    ensures t.NotArray? ==> ValidTags(t).Err?
    ensures t.Tags? ==> (ValidTags(t).Ok? <==> |t.items| <= 64 && forall k :: 0 <= k < |t.items| ==>
            TagField(t.items[k]))
    ensures t.Tags? && ValidTags(t).Ok? ==>
              |ValidTags(t).value| == |t.items| && forall k :: 0 <= k < |t.items| ==>
                ValidTags(t).value[k] == t.items[k].text
  {
    if t.Tags? {
      TagTextsIs(t.items);
    }
  }

  /** The priority is one of four, "normal" when missing. */
  lemma PriorityIs(f: Field)
    ensures Priority(f).Ok? <==>
            f.Absent? || (f.Str? && f.text in {Ascii("low"), Ascii("normal"), Ascii("high"), Ascii("urgent")})
    ensures Priority(f).Ok? ==> Priority(f).value == if f.Absent? then Ascii("normal") else f.text
  {
    if !f.Absent? && !f.Str? {
      assert |Ascii("low")| == 3 && |Ascii("normal")| == 6 && |Ascii("high")| == 4 && |Ascii("urgent")| == 6;
    }
  }

  /** Only missing and "internal" sensitivities are accepted, and "no-offsite" is refused under its own name. */
  lemma SensitivityIs(f: Field)
    ensures Sensitivity(f).Ok? <==> f == Absent || f == Str(Ascii("internal"))
    ensures Sensitivity(f) == Err(NoOffsite) <==> f == Str(Ascii("no-offsite"))
  {
    assert |Ascii("internal")| == 8 && |Ascii("no-offsite")| == 10;
  }

  // ---- The message core ---------------------------------------------------

  /** A field that may be missing. */
  predicate Kept(f: Field, cap: nat, t: Text) {
    match f
    case Absent => t == []
    case Other => false
    case Str(s) => t == TrimText(s) && |t| <= cap && 0 !in t
  }

  predicate Required(f: Field, cap: nat, t: Text) { f.Str? && t == TrimText(f.text) && 1 <= |t| <= cap && 0 !in t }

  /** The serialized metadata, if there is any. */
  function Serialized(m: Metadata): (t: Text)
  {
    match m case NoMetadata => [] case NullMetadata => Ascii("null") case Json(t) => t
  }

  /** The request is acceptable, and this is its content. */
  predicate Content(q: Request, c: Core) {
    && Kept(q.sender, 256, c.sender) && Required(q.recipient, 256, c.recipient) && Required(q.topic, 256, c.topic)
    && Required(q.body, 262_144, c.body) && ValidTags(q.tags) == Ok(c.tags) && Priority(q.priority) == Ok(c.priority)
    && Kept(q.threadId, 256, c.threadId) && Kept(q.replyTo, 128, c.replyTo) && Kept(q.clientMsgId, 128, c.clientMsgId)
    && Kept(q.hlc, 128, c.hlc)
    && (q.sensitivity == Absent || q.sensitivity == Str(Ascii("internal")))
    && (if q.metadata.Json? then c.metadata == q.metadata.text &&
      Utf8(c.metadata) <= 65_536 else c.metadata == [0x7B, 0x7D])
  }

  lemma KeptIff(f: Field, name: string, cap: nat, t: Text)
    ensures OptionalString(f, name, cap) == Ok(t) <==> Kept(f, cap, t)
  {
  }

  lemma RequiredIff(f: Field, name: string, cap: nat, t: Text)
    ensures NonEmpty(f, name, cap) == Ok(t) <==> Required(f, cap, t)
  {
  }

  lemma SideFieldsIff(q: Request, s: Side)
    ensures SideFields(q) == Ok(s) <==>
            Kept(q.threadId, 256, s.threadId) && Kept(q.replyTo, 128, s.replyTo) &&
              Kept(q.clientMsgId, 128, s.clientMsgId) &&
            Kept(q.hlc, 128, s.hlc)
  {
  }

  lemma LeadFieldsIff(q: Request, l: Lead)
    ensures LeadFields(q) == Ok(l) <==>
            && Priority(q.priority) == Ok(l.priority) && Kept(q.sender, 256, l.sender)
            && Required(q.recipient, 256, l.recipient) && Required(q.topic, 256, l.topic) &&
              Required(q.body, 262_144, l.body)
  {
    KeptIff(q.sender, "sender", 256, l.sender);
    RequiredIff(q.recipient, "recipient", 256, l.recipient);
    RequiredIff(q.topic, "topic", 256, l.topic);
    RequiredIff(q.body, "body", 262_144, l.body);
  }

  lemma ContentGiven(q: Request, c: Core)
    requires Content(q, c)
    ensures Fields(q) == Ok(c)
  {
    LeadFieldsIff(q, Lead(c.priority, c.sender, c.recipient, c.topic, c.body));
    SideFieldsIff(q, Side(c.threadId, c.replyTo, c.clientMsgId, c.hlc));
    SensitivityIs(q.sensitivity);
  }

  lemma GivenIsContent(q: Request, c: Core)
    requires Fields(q) == Ok(c)
    ensures Content(q, c)
  {
    LeadFieldsIff(q, Lead(c.priority, c.sender, c.recipient, c.topic, c.body));
    SideFieldsIff(q, Side(c.threadId, c.replyTo, c.clientMsgId, c.hlc));
    SensitivityIs(q.sensitivity);
  }

  lemma FieldsIff(q: Request, c: Core)
    ensures Fields(q) == Ok(c) <==> Content(q, c)
  {
    if Content(q, c) {
      ContentGiven(q, c);
    }
    if Fields(q) == Ok(c) {
      GivenIsContent(q, c);
    }
  }

  lemma OptionalRefused(f: Field, name: string, cap: nat)
    ensures OptionalString(f, name, cap).Err? <==> forall t :: !Kept(f, cap, t)
    ensures OptionalString(f, name, cap).Err? ==> OptionalString(f, name, cap).error == Invalid(name)
  {
    if OptionalString(f, name, cap).Ok? {
      assert Kept(f, cap, OptionalString(f, name, cap).value);
    }
  }

  lemma RequiredRefused(f: Field, name: string, cap: nat)
    ensures NonEmpty(f, name, cap).Err? <==> forall t :: !Required(f, cap, t)
    ensures NonEmpty(f, name, cap).Err? ==> NonEmpty(f, name, cap).error == Invalid(name)
  {
    if NonEmpty(f, name, cap).Ok? {
      assert Required(f, cap, NonEmpty(f, name, cap).value);
    }
  }

  lemma {:induction false} TagTextsRefused(items: seq<Field>)
    ensures TagTexts(items).Err? ==> TagTexts(items).error == Invalid("tags")
  {
    if items == [] {
    } else {
      TagTextsRefused(items[1..]);
    }
  }

  lemma TagsRefused(t: TagsField)
    ensures ValidTags(t).Err? ==> ValidTags(t).error == Invalid("tags")
  {
    if t.Tags? {
      TagTextsRefused(t.items);
    }
  }

  lemma LeadRefused(q: Request)
    ensures LeadFields(q).Err? ==>
              LeadFields(q).error ==
                if Priority(q.priority).Err? then Invalid("priority")
                else if forall t :: !Kept(q.sender, 256, t) then Invalid("sender")
                else if forall t :: !Required(q.recipient, 256, t) then Invalid("recipient")
                else if forall t :: !Required(q.topic, 256, t) then Invalid("topic")
                else Invalid("body")
  {
    OptionalRefused(q.sender, "sender", 256);
    RequiredRefused(q.recipient, "recipient", 256);
    RequiredRefused(q.topic, "topic", 256);
    RequiredRefused(q.body, "body", 262_144);
  }

  lemma SideRefused(q: Request)
    ensures SideFields(q).Err? ==>
              SideFields(q).error ==
                if forall t :: !Kept(q.threadId, 256, t) then Invalid("thread_id")
                else if forall t :: !Kept(q.replyTo, 128, t) then Invalid("reply_to")
                else if forall t :: !Kept(q.clientMsgId, 128, t) then Invalid("client_msg_id")
                else Invalid("hlc")
  {
    OptionalRefused(q.threadId, "thread_id", 256);
    OptionalRefused(q.replyTo, "reply_to", 128);
    OptionalRefused(q.clientMsgId, "client_msg_id", 128);
    OptionalRefused(q.hlc, "hlc", 128);
  }

  /** What a request is refused for: the first field that is not acceptable. */
  lemma RefusedField(q: Request)
    ensures Fields(q).Err? ==>
              Fields(q).error ==
                if LeadFields(q).Err? then LeadFields(q).error
                else if ValidTags(q.tags).Err? then Invalid("tags")
                else if SideFields(q).Err? then SideFields(q).error
                else if q.sensitivity == Str(Ascii("no-offsite")) then NoOffsite
                else if q.sensitivity != Absent && q.sensitivity != Str(Ascii("internal")) then Invalid("sensitivity")
                else Invalid("metadata")
  {
    TagsRefused(q.tags);
    SensitivityIs(q.sensitivity);
  }

  predicate Passing(t: Text) { t == [] || !ObviousPhi(t) }

  /** None of the screened texts shows an obvious identifier of a patient. */
  predicate Screened(q: Request, c: Core) {
    && Passing(c.body) && Passing(Serialized(q.metadata)) && Passing(SpaceJoined(c.tags)) && Passing(c.topic)
    && Passing(c.threadId) && Passing(c.recipient)
  }

  lemma SixScreened(a: Text, b: Text, c: Text, d: Text, e: Text, f: Text)
    ensures AnyPhi([a, b, c, d, e, f]) <==>
              !(Passing(a) && Passing(b) && Passing(c) && Passing(d) && Passing(e) && Passing(f))
  {
    var texts := [a, b, c, d, e, f];
    assert texts[0] == a && texts[1] == b && texts[2] == c && texts[3] == d && texts[4] == e && texts[5] == f;
    assert AnyPhi(texts) <==> exists i :: 0 <= i < |texts| && !Passing(texts[i]);
  }

  /** A message core is accepted exactly when its fields are, and the screen passes; the cap on the total
      decides nothing. */
  lemma CoreIff(q: Request, h: Host, c: Core)
    ensures ValidateCore(q, h) == Ok(c) <==> Content(q, c) && Screened(q, c)
  {
    FieldsIff(q, c);
    TotalCapNeverBinds(q, h);
    SixScreened(c.body, Serialized(q.metadata), SpaceJoined(c.tags), c.topic, c.threadId, c.recipient);
  }

  /** Tags are screened together, with a space between any two. */
  lemma {:induction false} SpaceJoinedIs(parts: seq<Text>)
    ensures parts == [] ==> SpaceJoined(parts) == []
    ensures |parts| == 1 ==> SpaceJoined(parts) == parts[0]
    ensures |parts| >= 2 ==> SpaceJoined(parts) == SpaceJoined(parts[..|parts| - 1]) + [32] + parts[|parts| - 1]
  {
    if |parts| == 2 {
      assert parts[..1] == [parts[0]] && parts[1..] == [parts[1]];
    } else if |parts| > 2 {
      SpaceJoinedIs(parts[1..]);
      assert parts[1..][..|parts| - 2] == parts[..|parts| - 1][1..];
    }
  }

  // ---- The PHI screen -----------------------------------------------------

  lemma DigitUnitIff(u: unit)
    ensures DigitUnit(u) <==> u in {0x30, 0x31, 0x32, 0x33, 0x34, 0x35, 0x36, 0x37, 0x38, 0x39}
  {
  }

  predicate WordCode(u: int) { exists c: char :: c as int == u && (c in CAPITAL || c in SMALL || c in "0123456789_") }

  lemma WordUnitIff(u: unit)
    ensures WordUnit(u) <==> WordCode(u)
  {
    assert forall n :: 0 <= n < 26 ==> CAPITAL[n] as int == 0x41 + n && SMALL[n] as int == 0x61 + n;
    assert forall n :: 0 <= n < 10 ==> "0123456789_"[n] as int == 0x30 + n;
    assert "0123456789_"[10] as int == 0x5F;
    if 0x41 <= u <= 0x5A {
      assert CAPITAL[u - 0x41] in CAPITAL;
    } else if 0x61 <= u <= 0x7A {
      assert SMALL[u - 0x61] in SMALL;
    } else if WordUnit(u) {
      var k := if u == 0x5F then 10 else u - 0x30;
      assert "0123456789_"[k] as int == u && "0123456789_"[k] in "0123456789_";
    }
    if WordCode(u) {
      var c: char :| c as int == u && (c in CAPITAL || c in SMALL || c in "0123456789_");
      if c in "0123456789_" {
        var k :| 0 <= k < 11 && "0123456789_"[k] == c;
        assert k < 10 ==> u == 0x30 + k;
      }
    }
  }

  /** Stretches of the patterns: digits, white space, and letters in any case. */
  lemma StretchesAre(s: Text, i: nat, j: nat)
    requires j <= |s|
    ensures Digits(s, i, j) <==> i <= j && forall u :: u in s[i..j] ==> DigitUnit(u)
    ensures Blanks(s, i, j) <==> i <= j && White(s[i..j])
  {
    if i <= j {
      var part := s[i..j];
      assert forall k :: i <= k < j ==> s[k] == part[k - i] && s[k] in part;
      WhiteIff(part);
    }
  }

  lemma LowerUnitIs(u: unit)
    ensures LowerUnit(u) == if 65 <= u < 65 + 26 then u - 65 + 97 else u
    ensures CAPITAL[0] as int == 65 && SMALL[0] as int == 97 && CAPITAL[25] as int == 65 + 25 &&
            SMALL[25] as int == 97 + 25
  {
  }

  // ---- Schemas ------------------------------------------------------------

  /** The text occurs somewhere in the other. */
  lemma IncludesIff(s: Text, p: Text)
    ensures Includes(s, p) <==> exists a, b :: s == a + p + b
  {
    if Includes(s, p) {
      var i :| 0 <= i <= |s| && Occurs(s, p, i);
      assert s == s[..i] + p + s[i + |p|..];
    }
    if a, b :| s == a + p + b {
      IncludesMiddle(a, p, b);
    }
  }

  /** The named schema; otherwise the one the lower-cased topic suggests, and "status" without any hint. */
  lemma SchemaForIs(explicit: Field, topic: Text, h: Host)
    ensures explicit == Str(Ascii("finding")) ==> SchemaFor(explicit, topic, h) == Finding
    ensures explicit == Str(Ascii("status")) ==> SchemaFor(explicit, topic, h) == Status
    ensures explicit == Str(Ascii("benchmark")) ==> SchemaFor(explicit, topic, h) == Benchmark
    ensures explicit !in {Str(Ascii("finding")), Str(Ascii("status")), Str(Ascii("benchmark"))} ==>
              var t := h.lower(topic);
              SchemaFor(explicit, topic, h) ==
                if Includes(t, Ascii("findings")) || (|t| >= 6 && t[..6] == Ascii("review")) then Finding
                else if t == Ascii("benchmark") then Benchmark
                else Status
  {
    assert |Ascii("finding")| == 7 && |Ascii("status")| == 6 && |Ascii("benchmark")| == 9;
    var t := h.lower(topic);
    assert |t| >= 6 ==> (Ascii("review") <= t <==> t[..6] == Ascii("review"));
    if t == Ascii("benchmark") {
      assert |Ascii("ownership")| == 9 && Ascii("ownership")[0] == 'o' as int && t[0] == 'b' as int;
    }
  }

  /** The keywords of a severity, the gravest first. */
  lemma SeverityIs(body: Text, h: Host)
    ensures var u := h.upper(body);
            Severity(body, h) ==
              if Includes(u, Ascii("CRITICAL")) then Ascii("CRITICAL")
              else if Includes(u, Ascii("VULNERABILITY")) || Includes(u, Ascii("SECURITY")) ||
                Includes(u, Ascii("HIGH")) then Ascii("HIGH")
              else if Includes(u, Ascii("WARNING")) || Includes(u, Ascii("MEDIUM")) then Ascii("MEDIUM")
              else Ascii("LOW")
  {
  }

  /** A body is completed only when it lacks what its schema asks for, and then keeps its text inside. */
  lemma AutoFitIs(body: Text, h: Host)
    ensures AutoFit(body, Status, h) == body
    ensures AutoFit(body, Benchmark, h) == if Includes(body, Ascii("=")) then body else Ascii("summary=") + body
    ensures AutoFit(body, Finding, h) ==
              if Includes(body, Ascii("COMPLETE")) || Includes(body, Ascii("FIX")) || Includes(body, Ascii("FINDING:"))
                then body
              else Ascii("FINDING: ") + body + [10] + Ascii("SEVERITY: ") + Severity(body, h)
  {
    assert Ascii("summary=") == Ascii("summary") + Ascii("=");
    assert Ascii("FINDING: ") == Ascii("FINDING:") + [32] && Ascii("SEVERITY: ") == Ascii("SEVERITY:") + [32];
    var s := Severity(body, h);
    assert Ascii("FINDING:") + [32] + body + [10] + Ascii("SEVERITY:") + [32] + s ==
           (Ascii("FINDING:") + [32]) + body + [10] + (Ascii("SEVERITY:") + [32]) + s;
  }

  /** What a body must show under each schema. */
  lemma MeetsSchemaIs(body: Text)
    ensures MeetsSchema(body, Status) <==> TrimText(body) != []
    ensures MeetsSchema(body, Benchmark) <==> Includes(body, Ascii("="))
    ensures MeetsSchema(body, Finding) <==>
            if Includes(body, Ascii("FINDING:")) then Includes(body, Ascii("SEVERITY:"))
            else Includes(body, Ascii("FIX")) || Includes(body, Ascii("TAGGED:")) || Includes(body, Ascii("COMPLETE"))
  {
  }

  // ---- JSON ---------------------------------------------------------------

  /** How many bytes JSON takes for a unit: two for a quote, a backslash and five controls, six for the others
      and for a lone surrogate, and those of its UTF-8 form otherwise. */
  lemma EscapedBytesIs(u: unit)
    ensures EscapedBytes(u) ==
              if u in {0x08, 0x09, 0x0A, 0x0C, 0x0D, 0x22, 0x5C} then 2
              else if u < 0x20 || u / 1024 in {54, 55} then 6
              else |Encoded(u)|
  {
    SurrogateBlocks(u);
    EncodedIs(u);
  }

  // ---- Identity -----------------------------------------------------------

  /** An agent writes under its own name only, others under any name they give. */
  lemma BindAgentIs(who: Identity, requested: Text, name: string)
    ensures who.role == Agent ==>
              BindAgent(who, requested, name) == if TrimText(requested) in {[], who.agent} then Ok(who.agent)
                else Err(Forbidden(name))
    ensures who.role != Agent ==>
              BindAgent(who, requested, name) == if TrimText(requested) == [] then Err(Invalid(name))
                else Ok(TrimText(requested))
  {
  }

  /** An agent's host is the configured one, or none; others name theirs. */
  lemma BindHostIs(who: Identity, requested: Text)
    ensures who.role != Agent ==> BindHost(who, requested) == Ok(requested)
    ensures who.role == Agent && (who.host == [] || requested in {[], who.host}) ==>
            BindHost(who, requested) == Ok(who.host)
    ensures who.role == Agent && who.host != [] && requested !in {[], who.host} ==>
            BindHost(who, requested) == Err(Forbidden("origin_host"))
  {
  }

  /** Only a hub with a name writes under it; everyone else under the cloud's, and none may claim another. */
  lemma BindHubIs(who: Identity, requested: Text, cloud: Text)
    ensures var own := if who.role == Hub && who.hub != [] then who.hub else cloud;
            BindHub(who, requested, cloud) == if requested in {[], own} then Ok(own) else Err(Forbidden("origin_hub"))
  {
  }

  /** The host and the hub of the request are the caller's to use. */
  ghost predicate NamesAllowed(q: Request, who: Identity, cloud: Text, host: Text, hub: Text) {
    && (exists asked :: Kept(q.originHost, 256, asked) && BindHost(who, asked) == Ok(host))
    && (exists asked :: Kept(q.originHub, 256, asked) && BindHub(who, asked, cloud) == Ok(hub))
  }

  lemma BindIff(q: Request, who: Identity, cloud: Text, m: Input)
    ensures Bind(q, who, cloud, m.core, m.body) == Ok(m) <==>
            BindAgent(who, m.core.sender, "sender") == Ok(m.sender) && NamesAllowed(q, who, cloud, m.host, m.hub)
  {
    forall t {
      KeptIff(q.originHost, "origin_host", 256, t);
    }
    forall t {
      KeptIff(q.originHub, "origin_hub", 256, t);
    }
  }

  lemma BuildSteps(q: Request, who: Identity, cloud: Text, h: Host, m: Input)
    ensures Build(q, who, cloud, h) == Ok(m) <==>
            && ValidateCore(q, h) == Ok(m.core) && m.body ==
              AutoFit(m.core.body, SchemaFor(q.schema, m.core.topic, h), h)
            && MeetsSchema(m.body, SchemaFor(q.schema, m.core.topic, h)) && !AnyPhi([m.body])
            && Bind(q, who, cloud, m.core, m.body) == Ok(m)
  {
  }

  /** A posted message is stored exactly when its core is accepted, its completed body meets the schema and
      passes the screen, and its names are the caller's to use. */
  lemma BuildIff(q: Request, who: Identity, cloud: Text, h: Host, m: Input)
    ensures Build(q, who, cloud, h) == Ok(m) <==>
            && ValidateCore(q, h) == Ok(m.core) && m.body ==
              AutoFit(m.core.body, SchemaFor(q.schema, m.core.topic, h), h)
            && MeetsSchema(m.body, SchemaFor(q.schema, m.core.topic, h)) && Passing(m.body)
            && BindAgent(who, m.core.sender, "sender") == Ok(m.sender) && NamesAllowed(q, who, cloud, m.host, m.hub)
  {
    BuildSteps(q, who, cloud, h, m);
    BindIff(q, who, cloud, m);
    assert AnyPhi([m.body]) <==> !Passing(m.body) by {
      assert [m.body][0] == m.body;
    }
  }
}
