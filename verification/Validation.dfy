/** Validation of a posted message: caps, schemas and their automatic completion. */
module Validation {
  import opened Prelude
  import opened Utf16

  // ---- JavaScript strings -------------------------------------------------

  predicate IsBlank(u: unit) { SpaceCode(u) }

  /** `trim()`. */
  function TrimText(s: Text): (t: Text)
    ensures |t| <= |s|
  {
    DropBack(DropFront(s, IsBlank), IsBlank)
  }

  predicate Occurs(s: Text, p: Text, i: nat) { i + |p| <= |s| && s[i..i + |p|] == p }

  /** `includes`. */
  predicate Includes(s: Text, p: Text) { exists i :: 0 <= i <= |s| && Occurs(s, p, i) }

  lemma IncludesMiddle(a: Text, p: Text, b: Text)
    ensures Includes(a + p + b, p)
  {
    assert Occurs(a + p + b, p, |a|);
  }

  // ---- Caps ---------------------------------------------------------------

  const MAX_TOPIC := 256
  const MAX_BODY := 262_144
  const MAX_NAME := 256       // sender, recipient, thread_id, origin_host, origin_hub
  const MAX_REFERENCE := 128  // reply_to, client_msg_id, hlc
  const MAX_TAGS := 64
  const MAX_TAG := 256
  const MAX_METADATA := 65_536
  const MAX_TOTAL := 400_000
  const ROW_LIMIT := 2_000_000

  // ---- Requests -----------------------------------------------------------

  /** A JSON field: missing or null, a string, or anything else. */
  datatype Field = Absent | Str(text: Text) | Other

  datatype TagsField = NoTags | NotArray | Tags(items: seq<Field>)

  /** Missing, null, or any other value with its serialization. */
  datatype Metadata = NoMetadata | NullMetadata | Json(text: Text)

  datatype Request = Request(sender: Field, recipient: Field, topic: Field, body: Field, tags: TagsField,
      priority: Field,
                             metadata: Metadata, sensitivity: Field, threadId: Field, replyTo: Field,
                             clientMsgId: Field, hlc: Field, schema: Field, originHost: Field, originHub: Field)

  datatype Refusal = Invalid(field: string) | Phi | NoOffsite | TotalTooLarge | SchemaUnmet | Forbidden(field: string)

  datatype Core = Core(sender: Text, recipient: Text, topic: Text, body: Text, tags: seq<Text>, priority: Text,
      metadata: Text,
                       threadId: Text, replyTo: Text, clientMsgId: Text, hlc: Text)

  datatype Role = Agent | Hub | Operator

  datatype Identity = Identity(agent: Text, host: Text, role: Role, hub: Text)

  /** What the code calls into that is not part of this model: case mapping. */
  datatype Host = Host(lower: Text -> Text, upper: Text -> Text)

  predicate NulFree(t: Text) { 0 !in t }

  /** `validateOptionalString`; an absent value is the empty text. */
  function OptionalString(f: Field, name: string, cap: nat): (r: Result<Text, Refusal>)
    ensures r.Err? ==> r.error != TotalTooLarge
    ensures r.Ok? ==> |r.value| <= cap && NulFree(r.value)
  {
    match f
    case Absent => Ok([])
    case Other => Err(Invalid(name))
    case Str(text) =>
      var t := TrimText(text);
      if |t| > cap || !NulFree(t) then Err(Invalid(name)) else Ok(t)
  }

  /** `nonEmpty(value ?? "")`. */
  function NonEmpty(f: Field, name: string, cap: nat): (r: Result<Text, Refusal>)
    ensures r.Err? ==> r.error != TotalTooLarge
    ensures r.Ok? ==> 0 < |r.value| <= cap && NulFree(r.value)
  {
    if !f.Str? then Err(Invalid(name))
    else
      var t := TrimText(f.text);
      if t == [] || |t| > cap || !NulFree(t) then Err(Invalid(name)) else Ok(t)
  }

  predicate TagsCapped(tags: seq<Text>) { forall t :: t in tags ==> |t| <= MAX_TAG && NulFree(t) }

  function Units(parts: seq<Text>): (r: nat) { if parts == [] then 0 else |parts[0]| + Units(parts[1..]) }

  lemma {:induction false} TagsUnits(tags: seq<Text>)
    requires TagsCapped(tags)
    ensures Units(tags) <= MAX_TAG * |tags|
  {
    if tags == [] {
    } else {
      assert tags[0] in tags && TagsCapped(tags[1..]);
      TagsUnits(tags[1..]);
    }
  }

  function TagTexts(items: seq<Field>): (r: Result<seq<Text>, Refusal>)
    ensures r.Err? ==> r.error != TotalTooLarge
    ensures r.Ok? ==> |r.value| == |items| && TagsCapped(r.value)
  {
    if items == [] then Ok([])
    else if !items[0].Str? || |items[0].text| > MAX_TAG || !NulFree(items[0].text) then Err(Invalid("tags"))
    else
      var rest := TagTexts(items[1..]);
      if rest.Err? then rest else Ok([items[0].text] + rest.value)
  }

  /** `validateTags`. */
  function ValidTags(t: TagsField): (r: Result<seq<Text>, Refusal>)
    ensures r.Err? ==> r.error != TotalTooLarge
    ensures r.Ok? ==> |r.value| <= MAX_TAGS && TagsCapped(r.value)
  {
    match t
    case NoTags => Ok([])
    case NotArray => Err(Invalid("tags"))
    case Tags(items) => if |items| > MAX_TAGS then Err(Invalid("tags")) else TagTexts(items)
  }

  lemma {:induction false} UnitsAppend(parts: seq<Text>, p: Text)
    ensures Units(parts + [p]) == Units(parts) + |p|
  {
    if parts == [] {
      assert parts + [p] == [p] && Units([p]) == |p| + Units([]);
    } else {
      assert (parts + [p])[1..] == parts[1..] + [p];
      UnitsAppend(parts[1..], p);
    }
  }

  lemma {:induction false} UnitsJoin(a: seq<Text>, b: seq<Text>)
    ensures Units(a + b) == Units(a) + Units(b)
  {
    if a == [] {
      assert a + b == b;
    } else {
      assert (a + b)[1..] == a[1..] + b;
      UnitsJoin(a[1..], b);
    }
  }

  /** The accumulating loop of `validateTotalSize`. */
  method ValidateTotalSize(parts: seq<Text>, metadataBytes: nat) returns (ok: bool)
    ensures ok <==> metadataBytes + Units(parts) <= MAX_TOTAL
  {
    var total := metadataBytes;
    for i := 0 to |parts|
      invariant total == metadataBytes + Units(parts[..i])
    {
      assert parts[..i + 1] == parts[..i] + [parts[i]];
      UnitsAppend(parts[..i], parts[i]);
      if parts[i] != [] {
        total := total + |parts[i]|;
      }
    }
    assert parts[..|parts|] == parts;
    ok := total <= MAX_TOTAL;
  }

  const EMPTY_OBJECT: Text := [0x7B, 0x7D]

  /** `validateMetadataSize`. */
  function MetadataBytes(metadata: Metadata): (r: nat) { if metadata.Json? then Utf8(metadata.text) else 0 }

  /** A text of plain ASCII characters. */
  function Ascii(s: string): (t: Text)
    ensures |t| == |s| && AsciiOnly(t)
  {
    seq(|s|, i requires 0 <= i < |s| => if s[i] < '\U{0080}' then s[i] as int else 0)
  }

  function Priorities(): (r: set<Text>) { {Ascii("low"), Ascii("normal"), Ascii("high"), Ascii("urgent")} }

  /** The parts `validateMessageCore` adds up. */
  function Parts(c: Core): (r: seq<Text>) {
    [c.body, c.sender, c.recipient, c.topic, c.threadId, c.replyTo, c.clientMsgId, c.hlc] + c.tags
  }

  /** The optional fields after the tags. */
  datatype Side = Side(threadId: Text, replyTo: Text, clientMsgId: Text, hlc: Text)

  function SideFields(q: Request): (r: Result<Side, Refusal>)
    ensures r.Err? ==> r.error != TotalTooLarge
    ensures r.Ok? ==> |r.value.threadId| <= MAX_NAME && |r.value.replyTo| <= MAX_REFERENCE
    ensures r.Ok? ==> |r.value.clientMsgId| <= MAX_REFERENCE && |r.value.hlc| <= MAX_REFERENCE
  {
    var threadId :- OptionalString(q.threadId, "thread_id", MAX_NAME);
    var replyTo :- OptionalString(q.replyTo, "reply_to", MAX_REFERENCE);
    var clientMsgId :- OptionalString(q.clientMsgId, "client_msg_id", MAX_REFERENCE);
    var hlc :- OptionalString(q.hlc, "hlc", MAX_REFERENCE);
    Ok(Side(threadId, replyTo, clientMsgId, hlc))
  }

  /** `validateSensitivity`, and the refusal of `no-offsite`. */
  function Sensitivity(f: Field): (r: Result<(), Refusal>)
    ensures r.Err? ==> r.error != TotalTooLarge
  {
    if f == Str(Ascii("no-offsite")) then Err(NoOffsite)
    else if f.Absent? || f == Str(Ascii("internal")) then Ok(())
    else Err(Invalid("sensitivity"))
  }

  function Priority(f: Field): (r: Result<Text, Refusal>)
    ensures r.Err? ==> r.error != TotalTooLarge
    ensures r.Ok? ==> r.value in Priorities()
  {
    var priority := if f.Absent? then Ascii("normal") else if f.Str? then f.text else [];
    if priority in Priorities() then Ok(priority) else Err(Invalid("priority"))
  }

  /** The fields before the tags. */
  datatype Lead = Lead(priority: Text, sender: Text, recipient: Text, topic: Text, body: Text)

  function LeadFields(q: Request): (r: Result<Lead, Refusal>)
    ensures r.Err? ==> r.error != TotalTooLarge
    ensures r.Ok? ==>
              r.value.priority in Priorities() && |r.value.sender| <= MAX_NAME && |r.value.recipient| <= MAX_NAME
    ensures r.Ok? ==> |r.value.topic| <= MAX_TOPIC && |r.value.body| <= MAX_BODY
  {
    var priority :- Priority(q.priority);
    var sender :- OptionalString(q.sender, "sender", MAX_NAME);
    var recipient :- NonEmpty(q.recipient, "recipient", MAX_NAME);
    var topic :- NonEmpty(q.topic, "topic", MAX_TOPIC);
    var body :- NonEmpty(q.body, "body", MAX_BODY);
    Ok(Lead(priority, sender, recipient, topic, body))
  }

  predicate Capped(c: Core, metadata: Metadata) {
    && |c.sender| <= MAX_NAME && |c.recipient| <= MAX_NAME && |c.topic| <= MAX_TOPIC && |c.body| <= MAX_BODY
    && |c.tags| <= MAX_TAGS && TagsCapped(c.tags) && c.priority in Priorities()
    && |c.threadId| <= MAX_NAME && |c.replyTo| <= MAX_REFERENCE && |c.clientMsgId| <= MAX_REFERENCE
    && |c.hlc| <= MAX_REFERENCE
    && MetadataBytes(metadata) <= MAX_METADATA && Utf8(c.metadata) <= MAX_METADATA
  }

  /** Every field of its own is acceptable: the checks of `validateMessageCore` before the total. */
  function Fields(q: Request): (r: Result<Core, Refusal>)
    ensures r.Err? ==> r.error != TotalTooLarge
    ensures r.Ok? ==> Capped(r.value, q.metadata)
  {
    var lead :- LeadFields(q);
    var tags :- ValidTags(q.tags);
    var side :- SideFields(q);
    var _ :- Sensitivity(q.sensitivity);
    if MetadataBytes(q.metadata) > MAX_METADATA then Err(Invalid("metadata"))
    else
      var metadata := if q.metadata.Json? then q.metadata.text else EMPTY_OBJECT;
      Ok(Core(lead.sender, lead.recipient, lead.topic, lead.body, tags, lead.priority, metadata, side.threadId,
        side.replyTo, side.clientMsgId,
        side.hlc))
  }

  // ---- The PHI screen -----------------------------------------------------

  predicate DigitUnit(u: unit) { 0x30 <= u <= 0x39 }

  /** What `\w` matches. */
  predicate WordUnit(u: unit) { DigitUnit(u) || 0x41 <= u <= 0x5A || 0x61 <= u <= 0x7A || u == 0x5F }

  /** What `\b` asserts at position `i`. */
  predicate Boundary(s: Text, i: nat)
    requires i <= |s|
  {
    (i > 0 && WordUnit(s[i - 1])) != (i < |s| && WordUnit(s[i]))
  }

  predicate Digits(s: Text, i: nat, j: nat)
    requires j <= |s|
  {
    i <= j && forall k :: i <= k < j ==> DigitUnit(s[k])
  }

  predicate Blanks(s: Text, i: nat, j: nat)
    requires j <= |s|
  {
    i <= j && forall k :: i <= k < j ==> IsBlank(s[k])
  }

  function LowerUnit(u: unit): (r: unit) { if 0x41 <= u <= 0x5A then u + 32 else u }

  /** The lower-case ASCII word stands at `i`, in any case. */
  predicate WordAt(s: Text, i: nat, word: Text) {
    i + |word| <= |s| && forall k :: 0 <= k < |word| ==> LowerUnit(s[i + k]) == word[k]
  }

  predicate UnitAt(s: Text, i: nat, units: set<unit>) { i < |s| && s[i] in units }

  /** `\b\d{3}-\d{2}-\d{4}\b` at `i`. */
  predicate SsnAt(s: Text, i: nat) {
    && i + 11 <= |s| && Boundary(s, i) && Digits(s, i, i + 3) && s[i + 3] == 0x2D && Digits(s, i + 4, i + 6)
    && s[i + 6] == 0x2D
    && Digits(s, i + 7, i + 11) && Boundary(s, i + 11)
  }

  /** `\bword[:#]?\s*` from `i` to `j`. */
  predicate LabelAt(s: Text, i: nat, word: Text, j: nat)
    requires j <= |s|
  {
    && WordAt(s, i, word) && Boundary(s, i)
    && (Blanks(s, i + |word|, j) || (UnitAt(s, i + |word|, {0x3A, 0x23}) && Blanks(s, i + |word| + 1, j)))
  }

  /** A label, then the number `\d{4,}\b` from `j` to `k`. */
  predicate MrnAt(s: Text, i: nat, j: nat, k: nat) {
    j + 4 <= k <= |s| && LabelAt(s, i, Ascii("mrn"), j) && Digits(s, j, k) && Boundary(s, k)
  }

  /** A label, then the date `\d{1,2}[/-]\d{1,2}[/-]\d{2,4}\b` with its parts from `j`, `k` and `l` to `m`. */
  predicate DobAt(s: Text, i: nat, j: nat, k: nat, l: nat, m: nat) {
    && j + 2 <= k <= j + 3 && k + 2 <= l <= k + 3 && l + 2 <= m <= l + 4 && m <= |s|
    && LabelAt(s, i, Ascii("dob"), j)
    && Digits(s, j, k - 1) && UnitAt(s, k - 1, {0x2F, 0x2D}) && Digits(s, k, l - 1) && UnitAt(s, l - 1, {0x2F, 0x2D})
    && Digits(s, l, m) && Boundary(s, m)
  }

  /** `\bpatient\s+(name|id)\b` with the second word from `j` to `k`. */
  predicate PatientAt(s: Text, i: nat, j: nat, k: nat) {
    && i + 8 <= j <= k <= |s| && WordAt(s, i, Ascii("patient")) && Boundary(s, i) && Blanks(s, i + 7, j)
    && ((k == j + 4 && WordAt(s, j, Ascii("name"))) || (k == j + 2 && WordAt(s, j, Ascii("id")))) && Boundary(s, k)
  }

  /** `containsObviousPhi`. */
  predicate ObviousPhi(s: Text) {
    || (exists i :: 0 <= i <= |s| && SsnAt(s, i))
    || (exists i, j, k :: 0 <= i <= j <= k <= |s| && MrnAt(s, i, j, k))
    || (exists i, j, k, l, m :: 0 <= i <= j <= k <= l <= m <= |s| && DobAt(s, i, j, k, l, m))
    || (exists i, j, k :: 0 <= i <= j <= k <= |s| && PatientAt(s, i, j, k))
  }

  /** `assertNoPhi`, which skips empty texts. */
  predicate AnyPhi(texts: seq<Text>) { exists i :: 0 <= i < |texts| && texts[i] != [] && ObviousPhi(texts[i]) }

  /** No digit and no letter P. */
  predicate Unmarked(s: Text) { forall i :: 0 <= i < |s| ==> !DigitUnit(s[i]) && s[i] != 0x50 && s[i] != 0x70 }

  /** Each pattern needs a digit or the word `patient`. */
  lemma UnmarkedPasses(s: Text)
    requires Unmarked(s)
    ensures !ObviousPhi(s)
  {
    forall i | 0 <= i <= |s| ensures !SsnAt(s, i) {
      assert i < |s| ==> !DigitUnit(s[i]);
    }
    forall i, j, k | 0 <= i <= j <= k <= |s| ensures !MrnAt(s, i, j, k) {
      assert j < |s| ==> !DigitUnit(s[j]);
    }
    forall i, j, k, l, m | 0 <= i <= j <= k <= l <= m <= |s| ensures !DobAt(s, i, j, k, l, m) {
      assert l < |s| ==> !DigitUnit(s[l]);
    }
    forall i, j, k | 0 <= i <= j <= k <= |s| ensures !PatientAt(s, i, j, k) {
      assert Ascii("patient")[0] == 0x70;
      assert i < |s| ==> LowerUnit(s[i]) != 0x70;
    }
  }

  function SpaceJoined(parts: seq<Text>): (r: Text) {
    if parts == [] then [] else if |parts| == 1 then parts[0] else parts[0] + [32] + SpaceJoined(parts[1..])
  }

  /** `validateMessageCore`. */
  function ValidateCore(q: Request, h: Host): (r: Result<Core, Refusal>)
    ensures r.Ok? ==> Capped(r.value, q.metadata)
  {
    var c :- Fields(q);
    if MetadataBytes(q.metadata) + Units(Parts(c)) > MAX_TOTAL then Err(TotalTooLarge)
    else
      var metadata := match q.metadata case NoMetadata => [] case NullMetadata => Ascii("null") case Json(text) => text;
      if AnyPhi([c.body, metadata, SpaceJoined(c.tags), c.topic, c.threadId, c.recipient]) then Err(Phi) else Ok(c)
  }

  lemma UnitsFour(a: Text, b: Text, c: Text, d: Text)
    ensures Units([a, b, c, d]) == |a| + |b| + |c| + |d|
  {
    UnitsAppend([], a);
    UnitsAppend([a], b);
    UnitsAppend([a, b], c);
    UnitsAppend([a, b, c], d);
    assert [a, b, c, d] == [a, b, c] + [d] && [a, b, c] == [a, b] + [c] && [a, b] == [a] + [b] && [a] == [] + [a];
  }

  lemma PartsUnits(c: Core)
    ensures Units(Parts(c)) == |c.body| + |c.sender| + |c.recipient| + |c.topic| + |c.threadId| + |c.replyTo| +
            |c.clientMsgId| + |c.hlc| + Units(c.tags)
  {
    UnitsJoin([c.body, c.sender, c.recipient, c.topic, c.threadId, c.replyTo, c.clientMsgId, c.hlc], c.tags);
    UnitsFour(c.body, c.sender, c.recipient, c.topic);
    UnitsFour(c.threadId, c.replyTo, c.clientMsgId, c.hlc);
    UnitsJoin([c.body, c.sender, c.recipient, c.topic], [c.threadId, c.replyTo, c.clientMsgId, c.hlc]);
    assert [c.body, c.sender, c.recipient, c.topic] + [c.threadId, c.replyTo, c.clientMsgId, c.hlc]
        == [c.body, c.sender, c.recipient, c.topic, c.threadId, c.replyTo, c.clientMsgId, c.hlc];
  }

  /** The total cap never refuses anything: the caps of the fields add up to less. */
  lemma TotalCapNeverBinds(q: Request, h: Host)
    ensures ValidateCore(q, h) != Err(TotalTooLarge)
    ensures Fields(q).Ok? ==> MetadataBytes(q.metadata) + Units(Parts(Fields(q).value)) <= 345_472 < MAX_TOTAL
  {
    if Fields(q).Ok? {
      PartsUnits(Fields(q).value);
      TagsUnits(Fields(q).value.tags);
    }
  }

  // ---- Schemas ------------------------------------------------------------

  datatype Schema = Finding | Status | Benchmark

  /** `enforceSchemaForTransport`. */
  function SchemaFor(explicit: Field, topic: Text, h: Host): (r: Schema) {
    if explicit == Str(Ascii("finding")) then Finding
    else if explicit == Str(Ascii("status")) then Status
    else if explicit == Str(Ascii("benchmark")) then Benchmark
    else
      var t := h.lower(topic);
      if Includes(t, Ascii("findings")) || Ascii("review") <= t then Finding
      else if t in {Ascii("status"), Ascii("ownership"), Ascii("coordination"), Ascii("handoff")} then Status
      else if t == Ascii("benchmark") then Benchmark
      else Status
  }

  function Severity(body: Text, h: Host): (s: Text)
    ensures 3 <= |s| <= 8 && AsciiOnly(s)
  {
    var upper := h.upper(body);
    if Includes(upper, Ascii("CRITICAL")) then Ascii("CRITICAL")
    else if Includes(upper, Ascii("HIGH")) || Includes(upper, Ascii("SECURITY")) ||
      Includes(upper, Ascii("VULNERABILITY")) then Ascii("HIGH")
    else if Includes(upper, Ascii("MEDIUM")) || Includes(upper, Ascii("WARNING")) then Ascii("MEDIUM")
    else Ascii("LOW")
  }

  function FindingText(body: Text, severity: Text): (r: Text) {
    Ascii("FINDING:") + [32] + body + [10] + Ascii("SEVERITY:") + [32] + severity
  }

  /** `autoFitSchema`. */
  function AutoFit(body: Text, schema: Schema, h: Host): (fitted: Text)
    ensures |fitted| <= |body| + 28
  {
    match schema
    case Status => body
    case Benchmark => if Includes(body, Ascii("=")) then body else Ascii("summary") + Ascii("=") + body
    case Finding =>
      if Includes(body, Ascii("FINDING:")) || Includes(body, Ascii("FIX")) || Includes(body, Ascii("COMPLETE"))
        then body
      else FindingText(body, Severity(body, h))
  }

  /** `validateMessageSchema`. */
  predicate MeetsSchema(body: Text, schema: Schema) {
    match schema
    case Status => TrimText(body) != []
    case Benchmark => Includes(body, Ascii("="))
    case Finding =>
      && (Includes(body, Ascii("FINDING:")) || Includes(body, Ascii("FIX")) || Includes(body, Ascii("TAGGED:")) ||
        Includes(body, Ascii("COMPLETE")))
      && (Includes(body, Ascii("FINDING:")) ==> Includes(body, Ascii("SEVERITY:")))
  }

  lemma FindingParts(f: Text, body: Text, s: Text, severity: Text)
    ensures Includes(f + [32] + body + [10] + s + [32] + severity, f) &&
            Includes(f + [32] + body + [10] + s + [32] + severity, s)
  {
    var head, tail := f + [32] + body + [10], [32] + severity;
    var text := f + [32] + body + [10] + s + [32] + severity;
    assert text == head + s + tail;
    IncludesMiddle(head, s, tail);
    assert text[0..|f|] == f;
    assert Occurs(text, f, 0);
  }

  lemma FindingFitted(body: Text, severity: Text)
    ensures Includes(FindingText(body, severity), Ascii("FINDING:")) &&
            Includes(FindingText(body, severity), Ascii("SEVERITY:"))
  {
    FindingParts(Ascii("FINDING:"), body, Ascii("SEVERITY:"), severity);
  }

  /** A fitted body is refused by its schema in one case only: it announces a finding without a severity. */
  lemma FittedRefusedIff(body: Text, schema: Schema, h: Host)
    requires TrimText(body) != []
    ensures MeetsSchema(AutoFit(body, schema, h), schema) <==>
            !(schema == Finding && Includes(body, Ascii("FINDING:")) && !Includes(body, Ascii("SEVERITY:")))
    ensures AutoFit(AutoFit(body, schema, h), schema, h) == AutoFit(body, schema, h)
  {
    match schema {
      case Status =>
      case Benchmark => IncludesMiddle(Ascii("summary"), Ascii("="), body);
      case Finding => FindingFitted(body, Severity(body, h));
    }
  }
}
