/** Building a directly posted message, and the bytes its row needs. */
module RowSize {
  import opened Prelude
  import opened Utf16
  import opened Validation

  // ---- Binding to the caller ----------------------------------------------

  /** `bindAgent`. */
  function BindAgent(who: Identity, requested: Text, name: string): (r: Result<Text, Refusal>)
    ensures r.Ok? ==> r.value == (if who.role == Agent then who.agent else TrimText(requested))
  {
    var trimmed := TrimText(requested);
    if who.role == Agent then
      if trimmed != [] && trimmed != who.agent then Err(Forbidden(name)) else Ok(who.agent)
    else if trimmed == [] then Err(Invalid(name))
    else Ok(trimmed)
  }

  /** `bindOriginHost`; an absent host is the empty text. */
  function BindHost(who: Identity, requested: Text): (r: Result<Text, Refusal>)
    ensures r.Ok? ==> r.value == (if who.role == Agent then who.host else requested)
  {
    if who.role == Agent && who.host != [] && requested != [] && requested != who.host
      then Err(Forbidden("origin_host"))
    else Ok(if who.role == Agent then who.host else requested)
  }

  /** The hub a direct write is attributed to. */
  function OwnHub(who: Identity, cloud: Text): (hub: Text)
  {
    if who.role == Hub && who.hub != [] then who.hub else cloud
  }

  /** `bindOriginHubForDirectWrite`. */
  function BindHub(who: Identity, requested: Text, cloud: Text): (r: Result<Text, Refusal>)
    ensures r.Ok? ==> r.value == OwnHub(who, cloud)
  {
    var own := OwnHub(who, cloud);
    if requested != [] && requested != own then Err(Forbidden("origin_hub")) else Ok(own)
  }

  /** The fields of the row that come from the request, the identity and the environment. */
  datatype Input = Input(sender: Text, core: Core, body: Text, host: Text, hub: Text)

  /** A body within its cap, completed or not. */
  ghost predicate Fitted(body: Text, h: Host) { exists b, schema :: |b| <= MAX_BODY && body == AutoFit(b, schema, h) }

  function Bind(q: Request, who: Identity, cloud: Text, core: Core, body: Text): (r: Result<Input, Refusal>)
    ensures r.Ok? ==> r.value.core == core && r.value.body == body
    ensures r.Ok? && who.role == Agent ==> r.value.sender == who.agent && r.value.host == who.host
    ensures r.Ok? && who.role != Agent ==> |r.value.sender| <= |core.sender| && |r.value.host| <= MAX_NAME
    ensures r.Ok? ==> r.value.hub == OwnHub(who, cloud)
  {
    var sender :- BindAgent(who, core.sender, "sender");
    var originHost :- OptionalString(q.originHost, "origin_host", MAX_NAME);
    var originHub :- OptionalString(q.originHub, "origin_hub", MAX_NAME);
    var host :- BindHost(who, originHost);
    var hub :- BindHub(who, originHub, cloud);
    Ok(Input(sender, core, body, host, hub))
  }

  /** `buildValidatedMessage`. */
  function Build(q: Request, who: Identity, cloud: Text, h: Host): (r: Result<Input, Refusal>)
    ensures r.Ok? ==> Capped(r.value.core, q.metadata) && Fitted(r.value.body, h)
  {
    var core :- ValidateCore(q, h);
    var schema := SchemaFor(q.schema, core.topic, h);
    var body := AutoFit(core.body, schema, h);
    if !MeetsSchema(body, schema) then Err(SchemaUnmet)
    else if AnyPhi([body]) then Err(Phi)
    else Bind(q, who, cloud, core, body)
  }

  // ---- Stored bytes -------------------------------------------------------

  /** `JSON.stringify` of one unit: short escapes, `\u00XX` for other controls and for lone surrogates. */
  function EscapedBytes(u: unit): (r: nat) {
    if u == 0x22 || u == 0x5C || 8 <= u <= 10 || u == 12 || u == 13 then 2
    else if u < 0x20 || High(u) || Low(u) then 6
    else UnitBytes(u)
  }

  function EscapedAll(s: Text): (n: nat)
    ensures n <= 6 * |s|
  {
    if s == [] then 0
    else if PairFirst(s) then 4 + EscapedAll(s[2..])
    else EscapedBytes(s[0]) + EscapedAll(s[1..])
  }

  /** Length in UTF-8 of the text as a JSON string. */
  function JsonBytes(s: Text): (n: nat)
    ensures n <= 2 + 6 * |s|
  {
    2 + EscapedAll(s)
  }

  function TagItems(tags: seq<Text>): (n: nat) {
    if tags == [] then 0 else JsonBytes(tags[0]) + (if |tags| > 1 then 1 else 0) + TagItems(tags[1..])
  }

  /** Length in UTF-8 of the tags as a JSON array. */
  function TagsBytes(tags: seq<Text>): (n: nat) { 2 + TagItems(tags) }

  /** What the store adds to a row: the UUID, two timestamps, the stream id and the integer columns. */
  datatype Generated = Generated(id: Text, stamp: Text, ingested: Text, streamId: Text)

  /** All ASCII: a UUID has 36 characters, a timestamp at most 30, a stream id at most a 19-digit sequence
      number and `-0`. */
  predicate WellSized(g: Generated) {
    && |g.id| == 36 && |g.stamp| <= 30 && |g.ingested| <= 30 && |g.streamId| <= 21
    && AsciiOnly(g.id) && AsciiOnly(g.stamp) && AsciiOnly(g.ingested) && AsciiOnly(g.streamId)
  }

  /** `seq`, `request_ack` and `origin_seq`, eight bytes each. */
  const INTEGER_BYTES := 24

  /** Bytes of the columns whose content the request decides. */
  function RequestBytes(c: Core, body: Text): (n: nat) {
    Utf8(c.clientMsgId) + Utf8(c.recipient) + Utf8(c.topic) + Utf8(body) + Utf8(c.threadId) + TagsBytes(c.tags) +
      Utf8(c.priority)
    + Utf8(c.replyTo) + Utf8(c.metadata) + Utf8(c.hlc)
  }

  /** Bytes of the generated and constant columns. */
  function GeneratedBytes(g: Generated): (n: nat) {
    Utf8(g.id) + Utf8(g.stamp) + Utf8(g.ingested) + Utf8(g.streamId) + Utf8(Ascii("1.0")) + Utf8(Ascii("internal")) +
      INTEGER_BYTES
  }

  /** Bytes of all columns of the row `insertMessage` writes. */
  function RowBytes(m: Input, g: Generated): (n: nat) {
    Utf8(m.sender) + Utf8(m.host) + Utf8(m.hub) + RequestBytes(m.core, m.body) + GeneratedBytes(g)
  }

  // ---- The largest row ----------------------------------------------------

  /** The most bytes a request decides, but for the severity its body is given. */
  const MAX_REQUEST := 953_947

  const MAX_GENERATED := 152

  /** What the configured names add, or the request's own when they may be chosen there. */
  function NameBytes(who: Identity, cloud: Text): (n: nat) {
    (if who.role == Agent then Utf8(who.agent) + Utf8(who.host) else 6 * MAX_NAME) + Utf8(OwnHub(who, cloud))
  }

  /** The largest row whose body is given a severity of this length. */
  function MaxRow(who: Identity, cloud: Text, severity: nat): (n: nat)
  {
    MAX_REQUEST + severity + MAX_GENERATED + NameBytes(who, cloud)
  }

  lemma GeneratedExact(g: Generated)
    requires AsciiOnly(g.id) && AsciiOnly(g.stamp) && AsciiOnly(g.ingested) && AsciiOnly(g.streamId)
    ensures GeneratedBytes(g) == |g.id| + |g.stamp| + |g.ingested| + |g.streamId| + 35
  {
    Utf8Ascii(g.id);
    Utf8Ascii(g.stamp);
    Utf8Ascii(g.ingested);
    Utf8Ascii(g.streamId);
    Utf8Ascii(Ascii("1.0"));
    Utf8Ascii(Ascii("internal"));
  }

  lemma PriorityBounded(p: Text)
    requires p in Priorities()
    ensures Utf8(p) <= 6
  {
    Utf8Ascii(p);
  }

  lemma {:induction false} TagItemsBounded(tags: seq<Text>)
    requires TagsCapped(tags)
    ensures TagItems(tags) <= if tags == [] then 0 else (3 + 6 * MAX_TAG) * |tags| - 1
  {
    if tags == [] {
    } else {
      assert tags[0] in tags && TagsCapped(tags[1..]);
      TagItemsBounded(tags[1..]);
    }
  }

  /** ASCII text never completes a pair. */
  lemma {:induction false} HeadJoin(head: Text, b: Text)
    requires AsciiOnly(head)
    ensures Utf8(head + b) == |head| + Utf8(b)
  {
    if head == [] {
      assert head + b == b;
    } else {
      assert (head + b)[1..] == head[1..] + b;
      HeadJoin(head[1..], b);
    }
  }

  lemma FindingBytes(b: Text, severity: Text)
    requires AsciiOnly(severity)
    ensures Utf8(FindingText(b, severity)) == Utf8(b) + 20 + |severity|
  {
    var head, tail := Ascii("FINDING:") + [32], [10] + Ascii("SEVERITY:") + [32] + severity;
    assert FindingText(b, severity) == (head + b) + tail;
    Utf8Join(head + b, tail);
    HeadJoin(head, b);
    Utf8Ascii(tail);
  }

  /** What case mapping must do for the exact bound: a severity above `LOW` takes a keyword in the upper-cased
      body, and the characters that make one leave the body at least five bytes short of three per unit.
      JavaScript's mapping does: the longest keyword in these terms is `HIGH`, written with U+0131 for its I and
      U+1E96 for its last H. */
  ghost predicate KeywordsAreShort(h: Host) { forall b :: Severity(b, h) != Ascii("LOW") ==> Utf8(b) + 5 <= 3 * |b| }

  predicate AsciiFromAscii(b: Text, upper: Text)
  {
    |upper| == |b| && forall i :: 0 <= i < |b| && upper[i] < 0x80 ==> b[i] < 0x80
  }

  /** A mapping unit by unit that makes ASCII of ASCII alone. */
  ghost predicate SimpleMapping(h: Host) { forall b :: AsciiFromAscii(b, h.upper(b)) }

  lemma AsciiSaves(b: Text, i: nat, n: nat)
    requires i + n <= |b| && AsciiOnly(b[i..i + n])
    ensures Utf8(b) <= 3 * |b| - 2 * n
  {
    assert b == b[..i] + (b[i..i + n] + b[i + n..]);
    Utf8Join(b[..i], b[i..i + n] + b[i + n..]);
    Utf8Join(b[i..i + n], b[i + n..]);
    Utf8Ascii(b[i..i + n]);
  }

  lemma KeywordSaves(b: Text, upper: Text, word: Text)
    requires AsciiFromAscii(b, upper) && AsciiOnly(word) && |word| >= 3
    ensures Includes(upper, word) ==> Utf8(b) + 5 <= 3 * |b|
  {
    if Includes(upper, word) {
      var i :| 0 <= i <= |upper| && Occurs(upper, word, i);
      forall k | i <= k < i + |word| ensures b[k] < 0x80 {
        assert upper[k] == upper[i..i + |word|][k - i] == word[k - i];
      }
      AsciiSaves(b, i, |word|);
    }
  }

  /** Such a mapping is one. */
  lemma SimpleMappingIsShort(h: Host)
    requires SimpleMapping(h)
    ensures KeywordsAreShort(h)
  {
    forall b | Severity(b, h) != Ascii("LOW") ensures Utf8(b) + 5 <= 3 * |b| {
      var upper := h.upper(b);
      KeywordSaves(b, upper, Ascii("CRITICAL"));
      KeywordSaves(b, upper, Ascii("HIGH"));
      KeywordSaves(b, upper, Ascii("SECURITY"));
      KeywordSaves(b, upper, Ascii("VULNERABILITY"));
      KeywordSaves(b, upper, Ascii("MEDIUM"));
      KeywordSaves(b, upper, Ascii("WARNING"));
    }
  }

  /** The longest severity a body of greatest size can be given. */
  ghost function LongestSeverity(h: Host): (n: nat) { if KeywordsAreShort(h) then 3 else 8 }

  /** What completing adds to a body's bytes, against a body of three bytes a unit. */
  lemma FitBounded(b: Text, schema: Schema, h: Host)
    ensures Utf8(AutoFit(b, schema, h)) <= 3 * |b| + 20 + LongestSeverity(h)
  {
    match schema
    case Status =>
    case Benchmark =>
      Utf8Join(Ascii("summary") + Ascii("="), b);
      Utf8Ascii(Ascii("summary") + Ascii("="));
    case Finding =>
      FindingBytes(b, Severity(b, h));
      assert |Ascii("LOW")| == 3;
  }

  lemma BodyBounded(body: Text, h: Host)
    requires Fitted(body, h)
    ensures Utf8(body) <= 3 * MAX_BODY + 20 + LongestSeverity(h)
  {
    var b, schema :| |b| <= MAX_BODY && body == AutoFit(b, schema, h);
    FitBounded(b, schema, h);
  }

  lemma RequestBounded(c: Core, metadata: Metadata, body: Text, h: Host)
    requires Capped(c, metadata) && Fitted(body, h)
    ensures RequestBytes(c, body) <= MAX_REQUEST + LongestSeverity(h)
  {
    BodyBounded(body, h);
    PriorityBounded(c.priority);
    TagItemsBounded(c.tags);
  }

  lemma BuildBinds(q: Request, who: Identity, cloud: Text, h: Host)
    requires Build(q, who, cloud, h).Ok?
    ensures var m := Build(q, who, cloud, h).value;
            && (if who.role == Agent then m.sender == who.agent && m.host == who.host
              else |m.sender| <= MAX_NAME && |m.host| <= MAX_NAME)
            && m.hub == OwnHub(who, cloud)
  {
  }

  /** No accepted row needs more than this. */
  lemma RowBounded(q: Request, who: Identity, cloud: Text, h: Host, g: Generated)
    requires Build(q, who, cloud, h).Ok? && WellSized(g)
    ensures RowBytes(Build(q, who, cloud, h).value, g) <= MaxRow(who, cloud, LongestSeverity(h))
  {
    var m := Build(q, who, cloud, h).value;
    BuildBinds(q, who, cloud, h);
    RequestBounded(m.core, q.metadata, m.body, h);
    GeneratedExact(g);
  }

  // ---- A request that reaches it ------------------------------------------

  const WIDE: unit := 0x4E00  // three bytes in UTF-8

  function Long(n: nat): (t: Text) { Repeat(WIDE, n) }

  /** Lengths for the fields of a request and for the generated columns. */
  datatype Sizes = Sizes(name: nat, topic: nat, body: nat, reference: nat, tags: nat, tag: nat, metadata: nat, id: nat,
      stamp: nat, stream: nat)

  /** Each as large as it may be. */
  predicate AtCaps(z: Sizes) {
    && z.name == MAX_NAME && z.topic == MAX_TOPIC && z.body == MAX_BODY && z.reference == MAX_REFERENCE
    && z.tags == MAX_TAGS
    && z.tag == MAX_TAG && z.metadata == MAX_METADATA && z.id == 36 && z.stamp == 30 && z.stream == 21
  }

  /** Control characters, which JSON writes with six bytes each. */
  function WorstTags(tag: nat, n: nat): (tags: seq<Text>)
    ensures |tags| == n && forall i :: 0 <= i < n ==> tags[i] == Repeat(1, tag)
  {
    seq(n, _ => Repeat(1, tag))
  }

  function WorstTagFields(tag: nat, n: nat): (fields: seq<Field>)
    ensures |fields| == n && forall i :: 0 <= i < n ==> fields[i] == Str(Repeat(1, tag))
  {
    seq(n, _ => Str(Repeat(1, tag)))
  }

  /** A JSON string. */
  function WorstMetadata(n: nat): (t: Text)
    requires n >= 2
  {
    [0x22] + Repeat(0x61, n - 2) + [0x22]
  }

  /** A name that an agent leaves out and other callers may choose. */
  function OwnName(who: Identity, z: Sizes): (f: Field) { if who.role == Agent then Absent else Str(Long(z.name)) }

  function OwnText(who: Identity, z: Sizes): (t: Text) { if who.role == Agent then [] else Long(z.name) }

  function WorstRequest(who: Identity, z: Sizes): (q: Request)
    requires AtCaps(z)
  {
    Request(OwnName(who, z), Str(Long(z.name)), Str(Long(z.topic)), Str(Long(z.body)),
      Tags(WorstTagFields(z.tag, z.tags)), Absent,
            Json(WorstMetadata(z.metadata)), Absent, Str(Long(z.name)), Str(Long(z.reference)), Str(Long(z.reference)),
            Str(Long(z.reference)), Str(Ascii("finding")), OwnName(who, z), Absent)
  }

  function WorstCore(who: Identity, z: Sizes): (c: Core)
    requires AtCaps(z)
  {
    Core(OwnText(who, z), Long(z.name), Long(z.topic), Long(z.body), WorstTags(z.tag, z.tags), Ascii("normal"),
      WorstMetadata(z.metadata),
         Long(z.name), Long(z.reference), Long(z.reference), Long(z.reference))
  }

  lemma LongKept(n: nat)
    ensures TrimText(Long(n)) == Long(n) && NulFree(Long(n))
  {
    assert n > 0 ==> !IsBlank(Long(n)[0]) && !IsBlank(Long(n)[n - 1]);
  }

  lemma LongAccepted(n: nat, name: string, cap: nat)
    requires n <= cap
    ensures OptionalString(Str(Long(n)), name, cap) == Ok(Long(n))
    ensures n > 0 ==> NonEmpty(Str(Long(n)), name, cap) == Ok(Long(n))
  {
    LongKept(n);
  }

  lemma {:induction false} WorstTagsAccepted(tag: nat, n: nat)
    requires tag <= MAX_TAG
    ensures TagTexts(WorstTagFields(tag, n)) == Ok(WorstTags(tag, n))
  {
    if n == 0 {
    } else {
      assert NulFree(Repeat(1, tag));
      assert WorstTagFields(tag, n)[1..] == WorstTagFields(tag, n - 1);
      WorstTagsAccepted(tag, n - 1);
      assert WorstTags(tag, n) == [Repeat(1, tag)] + WorstTags(tag, n - 1);
    }
  }

  lemma WorstMetadataBytes(n: nat)
    requires n >= 2
    ensures Utf8(WorstMetadata(n)) == n
  {
    Utf8Ascii(WorstMetadata(n));
  }

  lemma WorstSide(who: Identity, z: Sizes)
    requires AtCaps(z)
    ensures SideFields(WorstRequest(who, z)) ==
            Ok(Side(Long(z.name), Long(z.reference), Long(z.reference), Long(z.reference)))
  {
    LongAccepted(z.name, "thread_id", MAX_NAME);
    LongAccepted(z.reference, "reply_to", MAX_REFERENCE);
    LongAccepted(z.reference, "client_msg_id", MAX_REFERENCE);
    LongAccepted(z.reference, "hlc", MAX_REFERENCE);
  }

  lemma WorstTagsValid(tag: nat, n: nat)
    requires tag <= MAX_TAG && n <= MAX_TAGS
    ensures ValidTags(Tags(WorstTagFields(tag, n))) == Ok(WorstTags(tag, n))
  {
    WorstTagsAccepted(tag, n);
  }

  lemma DefaultsAccepted()
    ensures Priority(Absent) == Ok(Ascii("normal")) && Sensitivity(Absent) == Ok(())
  {
  }

  lemma WorstFields(who: Identity, z: Sizes)
    requires AtCaps(z)
    ensures Fields(WorstRequest(who, z)) == Ok(WorstCore(who, z))
  {
    DefaultsAccepted();
    LongAccepted(z.name, "sender", MAX_NAME);
    LongAccepted(z.name, "recipient", MAX_NAME);
    LongAccepted(z.topic, "topic", MAX_TOPIC);
    LongAccepted(z.body, "body", MAX_BODY);
    WorstTagsValid(z.tag, z.tags);
    WorstSide(who, z);
    WorstMetadataBytes(z.metadata);
  }

  lemma {:induction false} WorstTagsUnmarked(tag: nat, n: nat)
    ensures Unmarked(SpaceJoined(WorstTags(tag, n)))
  {
    if n <= 1 {
    } else {
      assert WorstTags(tag, n)[1..] == WorstTags(tag, n - 1);
      WorstTagsUnmarked(tag, n - 1);
    }
  }

  /** The fields of the largest request pass the screen. */
  lemma WorstScreened(who: Identity, z: Sizes)
    requires AtCaps(z)
    ensures var c := WorstCore(who, z);
            !AnyPhi([c.body, c.metadata, SpaceJoined(c.tags), c.topic, c.threadId, c.recipient])
  {
    var c := WorstCore(who, z);
    WorstTagsUnmarked(z.tag, z.tags);
    UnmarkedPasses(c.body);
    UnmarkedPasses(c.metadata);
    UnmarkedPasses(SpaceJoined(c.tags));
    UnmarkedPasses(c.topic);
    UnmarkedPasses(c.threadId);
  }

  lemma SeverityUnmarked(body: Text, h: Host)
    ensures Unmarked(Severity(body, h))
  {
  }

  /** So does its body when a severity is added. */
  lemma WorstBodyScreened(n: nat, h: Host)
    ensures !AnyPhi([FindingText(Long(n), Severity(Long(n), h))])
  {
    SeverityUnmarked(Long(n), h);
    UnmarkedPasses(FindingText(Long(n), Severity(Long(n), h)));
  }

  lemma WorstValidated(who: Identity, z: Sizes, h: Host)
    requires AtCaps(z)
    ensures ValidateCore(WorstRequest(who, z), h) == Ok(WorstCore(who, z))
  {
    WorstFields(who, z);
    TotalCapNeverBinds(WorstRequest(who, z), h);
    WorstScreened(who, z);
  }

  lemma OccursFirst(s: Text, p: Text, i: nat)
    requires p != [] && Occurs(s, p, i)
    ensures i < |s| && s[i] == p[0]
  {
    assert s[i..i + |p|][0] == s[i];
  }

  lemma NoneIncluded(n: nat, p: Text)
    requires p != [] && p[0] < 0x80
    ensures !Includes(Long(n), p)
  {
    if Includes(Long(n), p) {
      var i :| 0 <= i <= n && Occurs(Long(n), p, i);
      OccursFirst(Long(n), p, i);
    }
  }

  lemma WorstFitted(n: nat, h: Host)
    ensures var body := Long(n);
            AutoFit(body, Finding, h) == FindingText(body, Severity(body, h)) &&
              MeetsSchema(AutoFit(body, Finding, h), Finding)
  {
    NoneIncluded(n, Ascii("FINDING:"));
    NoneIncluded(n, Ascii("FIX"));
    NoneIncluded(n, Ascii("COMPLETE"));
    FindingFitted(Long(n), Severity(Long(n), h));
  }

  lemma WorstBinds(who: Identity, cloud: Text, z: Sizes, body: Text)
    requires AtCaps(z)
    ensures Bind(WorstRequest(who, z), who, cloud, WorstCore(who, z), body) ==
            Ok(Input(if who.role == Agent then who.agent else Long(z.name), WorstCore(who, z), body,
                     if who.role == Agent then who.host else Long(z.name), OwnHub(who, cloud)))
  {
    LongKept(z.name);
    LongAccepted(z.name, "origin_host", MAX_NAME);
    assert TrimText([]) == [];
  }

  /** The row built from the largest request. */
  function WorstInput(who: Identity, cloud: Text, z: Sizes, h: Host): (m: Input)
    requires AtCaps(z)
  {
    var body := FindingText(Long(z.body), Severity(Long(z.body), h));
    Input(if who.role == Agent then who.agent else Long(z.name), WorstCore(who, z), body,
          if who.role == Agent then who.host else Long(z.name), OwnHub(who, cloud))
  }

  lemma WorstAccepted(who: Identity, cloud: Text, z: Sizes, h: Host)
    requires AtCaps(z)
    ensures Build(WorstRequest(who, z), who, cloud, h) == Ok(WorstInput(who, cloud, z, h))
  {
    WorstValidated(who, z, h);
    WorstFitted(z.body, h);
    WorstBodyScreened(z.body, h);
    WorstBinds(who, cloud, z, FindingText(Long(z.body), Severity(Long(z.body), h)));
  }

  lemma {:induction false} EscapedWorst(n: nat)
    ensures EscapedAll(Repeat(1, n)) == 6 * n
  {
    if n == 0 {
    } else {
      assert Repeat(1, n)[1..] == Repeat(1, n - 1);
      EscapedWorst(n - 1);
    }
  }

  lemma {:induction false} WorstTagItems(tag: nat, n: nat)
    requires JsonBytes(Repeat(1, tag)) == 2 + 6 * MAX_TAG
    ensures TagItems(WorstTags(tag, n)) == if n == 0 then 0 else (3 + 6 * MAX_TAG) * n - 1
  {
    if n == 0 {
    } else {
      assert WorstTags(tag, n)[1..] == WorstTags(tag, n - 1);
      WorstTagItems(tag, n - 1);
    }
  }

  lemma LongBytes(n: nat)
    ensures Utf8(Long(n)) == 3 * n
  {
    Utf8Repeat(WIDE, n);
  }

  lemma WorstRequestBytes(who: Identity, z: Sizes, severity: Text)
    requires AtCaps(z) && AsciiOnly(severity) && |severity| <= 8
    ensures RequestBytes(WorstCore(who, z), FindingText(Long(z.body), severity)) == MAX_REQUEST + |severity|
  {
    LongBytes(z.name);
    LongBytes(z.topic);
    LongBytes(z.reference);
    LongBytes(z.body);
    FindingBytes(Long(z.body), severity);
    EscapedWorst(z.tag);
    WorstTagItems(z.tag, z.tags);
    WorstMetadataBytes(z.metadata);
    Utf8Ascii(Ascii("normal"));
  }

  function WorstGenerated(z: Sizes): (g: Generated) {
    Generated(Repeat(0x30, z.id), Repeat(0x30, z.stamp), Repeat(0x30, z.stamp), Repeat(0x30, z.stream))
  }

  lemma WorstGeneratedBytes(z: Sizes)
    requires AtCaps(z)
    ensures WellSized(WorstGenerated(z)) && GeneratedBytes(WorstGenerated(z)) == MAX_GENERATED
  {
    GeneratedExact(WorstGenerated(z));
  }

  /** The severity the largest body is given, from three to eight characters: case mapping decides it. */
  function WorstSeverity(z: Sizes, h: Host): (n: nat)
    ensures 3 <= n <= 8
  {
    |Severity(Long(z.body), h)|
  }

  lemma WorstInputBytes(who: Identity, cloud: Text, z: Sizes, h: Host)
    requires AtCaps(z)
    ensures WellSized(WorstGenerated(z))
    ensures RowBytes(WorstInput(who, cloud, z, h), WorstGenerated(z)) == MaxRow(who, cloud, WorstSeverity(z, h))
  {
    WorstRequestBytes(who, z, Severity(Long(z.body), h));
    WorstGeneratedBytes(z);
    LongBytes(z.name);
  }

  /** The bound is reached for the severity that case mapping gives the largest body. */
  lemma MaxRowReached(who: Identity, cloud: Text, z: Sizes, h: Host)
    requires AtCaps(z)
    ensures Build(WorstRequest(who, z), who, cloud, h).Ok? && WellSized(WorstGenerated(z))
    ensures RowBytes(Build(WorstRequest(who, z), who, cloud, h).value, WorstGenerated(z)) ==
            MaxRow(who, cloud, WorstSeverity(z, h))
  {
    WorstAccepted(who, cloud, z, h);
    WorstInputBytes(who, cloud, z, h);
  }

  lemma WideIsLow(z: Sizes, h: Host)
    requires KeywordsAreShort(h)
    ensures WorstSeverity(z, h) == 3
  {
    LongBytes(z.body);
    assert |Ascii("LOW")| == 3;
  }

  ghost predicate EveryRowFits(who: Identity, cloud: Text, h: Host) {
    forall q, g :: Build(q, who, cloud, h).Ok? && WellSized(g) ==>
      RowBytes(Build(q, who, cloud, h).value, g) < 2_000_000
  }

  lemma FitsBelowLimit(who: Identity, cloud: Text, h: Host)
    requires MaxRow(who, cloud, LongestSeverity(h)) < ROW_LIMIT
    ensures EveryRowFits(who, cloud, h)
  {
    forall q, g | Build(q, who, cloud, h).Ok? && WellSized(g)
      ensures RowBytes(Build(q, who, cloud, h).value, g) < ROW_LIMIT {
      RowBounded(q, who, cloud, h, g);
    }
  }

  /** Which identities are safe: every row fits exactly when the largest one does. Whatever case mapping
      does, it is enough that it does with a severity of eight characters and necessary that it does with
      the one its body is given. */
  lemma RowFitsIff(who: Identity, cloud: Text, z: Sizes, h: Host)
    requires AtCaps(z)
    ensures KeywordsAreShort(h) ==> (EveryRowFits(who, cloud, h) <==> MaxRow(who, cloud, 3) < ROW_LIMIT)
    ensures MaxRow(who, cloud, 8) < ROW_LIMIT ==> EveryRowFits(who, cloud, h)
    ensures EveryRowFits(who, cloud, h) ==> MaxRow(who, cloud, WorstSeverity(z, h)) < ROW_LIMIT
  {
    MaxRowReached(who, cloud, z, h);
    if KeywordsAreShort(h) {
      WideIsLow(z, h);
    }
    if MaxRow(who, cloud, LongestSeverity(h)) < ROW_LIMIT {
      FitsBelowLimit(who, cloud, h);
    }
  }

  /** Nothing caps a configured agent name: one that needs two million bytes makes every accepted row too large. */
  lemma LongIdentityOverflows(q: Request, who: Identity, cloud: Text, h: Host, g: Generated)
    requires Build(q, who, cloud, h).Ok? && who.role == Agent && Utf8(who.agent) >= ROW_LIMIT
    ensures RowBytes(Build(q, who, cloud, h).value, g) >= ROW_LIMIT
  {
    BuildBinds(q, who, cloud, h);
  }
}
