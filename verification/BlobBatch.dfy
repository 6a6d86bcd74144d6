/** `parse_blob_batch`: the reader of `git cat-file --batch` output, against the printer of that format. */
module BlobBatch {
  import opened Prelude

  type Bytes = seq<byte>

  const NL: byte := 10
  const SPACE: byte := 32

  predicate AllDigits(s: Bytes) { forall k :: 0 <= k < |s| ==> 48 <= s[k] <= 57 }

  /** `str(n).encode()`. */
  function Dec(n: nat): (s: Bytes)
    ensures s != [] && AllDigits(s)
  {
    var d: byte := 48 + n % 10;
    if n < 10 then [d] else Dec(n / 10) + [d]
  }

  /** `int(s)`. */
  function Value(s: Bytes): (n: nat)
    requires AllDigits(s)
  {
    if s == [] then 0 else Value(s[..|s| - 1]) * 10 + (s[|s| - 1] - 48)
  }

  lemma DigitAppended(s: Bytes, d: byte)
    requires AllDigits(s) && 48 <= d <= 57
    ensures AllDigits(s + [d]) && Value(s + [d]) == Value(s) * 10 + (d - 48)
  {
    assert (s + [d])[..|s|] == s;
  }

  lemma {:induction false} ValueOfDec(n: nat)
    ensures Value(Dec(n)) == n
  {
    if n < 10 {
    } else {
      ValueOfDec(n / 10);
      var s: Bytes := Dec(n);
      assert s[..|s| - 1] == Dec(n / 10);
    }
  }

  /** CPython refuses to convert more digits than this. */
  const MAX_INT_DIGITS := 4300

  // ---- bytes.split() ------------------------------------------------------

  predicate IsSpace(b: byte) { b == 32 || 9 <= b <= 13 }

  /** Length of the leading run of non-space bytes. */
  function WordLength(s: Bytes): (n: nat)
    ensures n <= |s| && (forall k :: 0 <= k < n ==> !IsSpace(s[k])) && (n < |s| ==> IsSpace(s[n]))
  {
    if s == [] || IsSpace(s[0]) then 0 else 1 + WordLength(s[1..])
  }

  /** The non-empty runs between white space. */
  function Split(s: Bytes): (r: seq<Bytes>)
    decreases |s|
  {
    if s == [] then []
    else if IsSpace(s[0]) then Split(s[1..])
    else
      var n := WordLength(s);
      [s[..n]] + Split(s[n..])
  }

  predicate Word(s: Bytes) { s != [] && forall k :: 0 <= k < |s| ==> !IsSpace(s[k]) }

  lemma {:induction false} WordThenSpace(w: Bytes, rest: Bytes)
    requires (forall k :: 0 <= k < |w| ==> !IsSpace(w[k])) && (rest == [] || IsSpace(rest[0]))
    ensures WordLength(w + rest) == |w|
  {
    if w == [] {
      assert w + rest == rest;
    } else {
      assert (w + rest)[1..] == w[1..] + rest;
      WordThenSpace(w[1..], rest);
    }
  }

  lemma HeaderRegrouped(a: Bytes, b: Bytes, c: Bytes)
    ensures a + [SPACE] + b + [SPACE] + c == a + ([SPACE] + (b + ([SPACE] + c)))
  {
  }

  lemma SplitWord(w: Bytes, rest: Bytes)
    requires Word(w) && (rest == [] || IsSpace(rest[0]))
    ensures Split(w + rest) == [w] + if rest == [] then [] else Split(rest[1..])
  {
    WordThenSpace(w, rest);
    var s := w + rest;
    assert s[..|w|] == w && s[|w|..] == rest && s[0] == w[0];
  }

  /** Splitting a header printed with single spaces gives back its three words. */
  lemma SplitHeader(a: Bytes, b: Bytes, c: Bytes)
    requires Word(a) && Word(b) && Word(c)
    ensures Split(a + [SPACE] + b + [SPACE] + c) == [a, b, c]
  {
    var tail := [SPACE] + c;
    var mid := [SPACE] + (b + tail);
    HeaderRegrouped(a, b, c);
    SplitWord(a, mid);
    assert mid[1..] == b + tail && tail[1..] == c;
    SplitWord(b, tail);
    SplitWord(c, []);
    assert c + [] == c;
  }

  // ---- The format ---------------------------------------------------------

  /** An indexed file: name, mode and object id. */
  datatype Entry = Entry(name: string, mode: string, oid: Bytes)

  datatype Blob = Blob(name: string, mode: string, data: Bytes)

  datatype Error = TruncatedHeader | WrongHeader | TruncatedBody | WrongHash | TrailingOutput

  const BLOB: Bytes := [98, 108, 111, 98]  // "blob"

  /** The hash Git gives a blob. */
  function BlobHash(data: Bytes, sha: Bytes -> Bytes): (oid: Bytes) { sha(BLOB + [SPACE] + Dec(|data|) + [0] + data) }

  /** What git prints for one requested blob. */
  function Print(oid: Bytes, data: Bytes): (r: Bytes)
  {
    oid + [SPACE] + BLOB + [SPACE] + Dec(|data|) + [NL] + data + [NL]
  }

  function PrintAll(entries: seq<Entry>, datas: seq<Bytes>): (r: Bytes)
    requires |entries| == |datas|
  {
    if entries == [] then [] else Print(entries[0].oid, datas[0]) + PrintAll(entries[1..], datas[1..])
  }

  /** The header is accepted for this entry. */
  predicate HeaderOk(header: Bytes, oid: Bytes) {
    var f := Split(header);
    |f| == 3 && f[0] == oid && f[1] == BLOB && AllDigits(f[2]) && 0 < |f[2]| <= MAX_INT_DIGITS
  }

  function SizeOf(header: Bytes): (r: nat)
    requires |Split(header)| == 3 && AllDigits(Split(header)[2])
  {
    Value(Split(header)[2])
  }

  /** An accepted header without newline that announces this blob, whose hash is the requested id. */
  predicate RecordOk(header: Bytes, e: Entry, data: Bytes, sha: Bytes -> Bytes) {
    NL !in header && HeaderOk(header, e.oid) && SizeOf(header) == |data| && BlobHash(data, sha) == e.oid
  }

  function Record(header: Bytes, data: Bytes): (r: Bytes) { header + [NL] + data + [NL] }

  function Assemble(headers: seq<Bytes>, datas: seq<Bytes>): (r: Bytes)
    requires |headers| == |datas|
  {
    if headers == [] then [] else Record(headers[0], datas[0]) + Assemble(headers[1..], datas[1..])
  }

  predicate AllOk(headers: seq<Bytes>, entries: seq<Entry>, datas: seq<Bytes>, sha: Bytes -> Bytes) {
    |headers| == |entries| == |datas| && forall i :: 0 <= i < |entries| ==>
      RecordOk(headers[i], entries[i], datas[i], sha)
  }

  /** The output is one acceptable record per entry, in order, and nothing else. */
  ghost predicate Holds(output: Bytes, entries: seq<Entry>, datas: seq<Bytes>, sha: Bytes -> Bytes) {
    exists headers :: AllOk(headers, entries, datas, sha) && output == Assemble(headers, datas)
  }

  function FindNewline(s: Bytes, from: nat): (r: Option<nat>)
    requires from <= |s|
    ensures r.Some? ==> from <= r.value < |s| && s[r.value] == NL && forall k :: from <= k < r.value ==> s[k] != NL
    ensures r.None? ==> forall k :: from <= k < |s| ==> s[k] != NL
    decreases |s| - from
  {
    if from == |s| then None else if s[from] == NL then Some(from) else FindNewline(s, from + 1)
  }

  /** `data = output[cursor : cursor + size]` and the checks of one record; the cursor behind it. */
  function ParseOne(output: Bytes, cursor: nat, e: Entry, sha: Bytes -> Bytes): (r: Result<(Bytes, nat), Error>)
    requires cursor <= |output|
    ensures r.Ok? ==> cursor < r.value.1 <= |output|
  {
    var newline := FindNewline(output, cursor);
    if newline.None? then Err(TruncatedHeader)
    else
      var header := output[cursor..newline.value];
      if !HeaderOk(header, e.oid) then Err(WrongHeader)
      else
        var start, size := newline.value + 1, SizeOf(header);
        if start + size >= |output| || output[start + size] != NL then Err(TruncatedBody)
        else if BlobHash(output[start..start + size], sha) != e.oid then Err(WrongHash)
        else Ok((output[start..start + size], start + size + 1))
  }

  /** The record at the cursor, if there is one, is what is parsed. */
  lemma ParseOneExact(output: Bytes, cursor: nat, e: Entry, sha: Bytes -> Bytes, header: Bytes, data: Bytes)
    requires cursor <= |output| && RecordOk(header, e, data, sha) && Record(header, data) <= output[cursor..]
    ensures ParseOne(output, cursor, e, sha) == Ok((data, cursor + |header| + |data| + 2))
  {
    var record := Record(header, data);
    forall k | 0 <= k < |record| ensures output[cursor + k] == record[k] {
      assert output[cursor..][k] == record[k];
    }
    var end := cursor + |header|;
    assert output[end] == record[|header|] == NL;
    forall k | cursor <= k < end ensures output[k] != NL {
      assert output[k] == record[k - cursor] == header[k - cursor];
    }
    assert FindNewline(output, cursor) == Some(end);
    assert output[cursor..end] == header;
    assert output[end + 1 + |data|] == record[|header| + 1 + |data|] == NL;
    assert output[end + 1..end + 1 + |data|] == data;
  }

  /** What is parsed at the cursor is a record there. */
  lemma ParseOneSound(output: Bytes, cursor: nat, e: Entry, sha: Bytes -> Bytes) returns (header: Bytes)
    requires cursor <= |output| && ParseOne(output, cursor, e, sha).Ok?
    ensures var (data, next) := ParseOne(output, cursor, e, sha).value;
            RecordOk(header, e, data, sha) && output[cursor..] == Record(header, data) + output[next..]
  {
    var end := FindNewline(output, cursor).value;
    header := output[cursor..end];
    var size := SizeOf(header);
    assert output[cursor..] == header + [NL] + output[end + 1..end + 1 + size] + [NL] + output[end + size + 2..];
  }

  function ParseFrom(output: Bytes, cursor: nat, entries: seq<Entry>,
      sha: Bytes -> Bytes): (r: Result<seq<Bytes>, Error>)
    requires cursor <= |output|
    decreases |entries|
  {
    if entries == [] then if cursor == |output| then Ok([]) else Err(TrailingOutput)
    else
      var one := ParseOne(output, cursor, entries[0], sha);
      if one.Err? then Err(one.error)
      else
        var rest := ParseFrom(output, one.value.1, entries[1..], sha);
        if rest.Err? then rest else Ok([one.value.0] + rest.value)
  }

  /** A successful parse accounts for every remaining byte. */
  lemma {:induction false} ParseSound(output: Bytes, cursor: nat, entries: seq<Entry>, sha: Bytes -> Bytes)
    requires cursor <= |output| && ParseFrom(output, cursor, entries, sha).Ok?
    ensures Holds(output[cursor..], entries, ParseFrom(output, cursor, entries, sha).value, sha)
    decreases |entries|
  {
    if entries == [] {
      assert AllOk([], [], [], sha) && Assemble([], []) == [];
    } else {
      var (data, next) := ParseOne(output, cursor, entries[0], sha).value;
      var header := ParseOneSound(output, cursor, entries[0], sha);
      ParseSound(output, next, entries[1..], sha);
      var datas := ParseFrom(output, next, entries[1..], sha).value;
      var headers :| AllOk(headers, entries[1..], datas, sha) && output[next..] == Assemble(headers, datas);
      var all := [header] + headers;
      assert all[1..] == headers && ([data] + datas)[1..] == datas;
      assert AllOk(all, entries, [data] + datas, sha);
    }
  }

  /** From the cursor on the output is one acceptable record per entry. */
  ghost predicate At(output: Bytes, cursor: nat, entries: seq<Entry>, headers: seq<Bytes>, datas: seq<Bytes>,
      sha: Bytes -> Bytes)
  {
    cursor <= |output| && AllOk(headers, entries, datas, sha) && output[cursor..] == Assemble(headers, datas)
  }

  /** The first record is parsed and the others are behind it. */
  lemma AtStep(output: Bytes, cursor: nat, entries: seq<Entry>, headers: seq<Bytes>, datas: seq<Bytes>,
      sha: Bytes -> Bytes) returns (next: nat)
    requires At(output, cursor, entries, headers, datas, sha) && entries != []
    ensures |headers| == |datas| == |entries|
    ensures ParseOne(output, cursor, entries[0], sha) == Ok((datas[0], next))
    ensures At(output, next, entries[1..], headers[1..], datas[1..], sha)
  {
    var front, back := Record(headers[0], datas[0]), Assemble(headers[1..], datas[1..]);
    next := cursor + |front|;
    assert output[cursor..] == front + back;
    assert output[next..] == output[cursor..][|front|..] == back;
    ParseOneExact(output, cursor, entries[0], sha, headers[0], datas[0]);
  }

  lemma ParseStep(output: Bytes, cursor: nat, entries: seq<Entry>, sha: Bytes -> Bytes, data: Bytes, next: nat,
      datas: seq<Bytes>)
    requires cursor <= |output| && next <= |output| && entries != []
    requires ParseOne(output, cursor, entries[0], sha) == Ok((data, next)) &&
             ParseFrom(output, next, entries[1..], sha) == Ok(datas)
    ensures ParseFrom(output, cursor, entries, sha) == Ok([data] + datas)
  {
  }

  /** Output that is made of acceptable records parses to their bodies. */
  lemma {:induction false} ParseComplete(output: Bytes, cursor: nat, entries: seq<Entry>, headers: seq<Bytes>,
      datas: seq<Bytes>, sha: Bytes -> Bytes)
    requires At(output, cursor, entries, headers, datas, sha)
    ensures cursor <= |output| && ParseFrom(output, cursor, entries, sha) == Ok(datas)
    decreases |entries|
  {
    if entries == [] {
    } else {
      var next := AtStep(output, cursor, entries, headers, datas, sha);
      ParseComplete(output, next, entries[1..], headers[1..], datas[1..], sha);
      ParseStep(output, cursor, entries, sha, datas[0], next, datas[1..]);
      assert datas == [datas[0]] + datas[1..];
    }
  }

  /** Names and modes are the requested ones, in order. */
  predicate Labelled(blobs: seq<Blob>, entries: seq<Entry>) {
    |blobs| == |entries| && forall i :: 0 <= i < |blobs| ==>
      blobs[i].name == entries[i].name && blobs[i].mode == entries[i].mode
  }

  lemma LabelledAppend(blobs: seq<Blob>, entries: seq<Entry>, i: nat, data: Bytes)
    requires i < |entries| && Labelled(blobs, entries[..i])
    ensures Labelled(blobs + [Blob(entries[i].name, entries[i].mode, data)], entries[..i + 1])
  {
  }

  ghost predicate NeverHolds(output: Bytes, entries: seq<Entry>, sha: Bytes -> Bytes) {
    forall datas :: !Holds(output, entries, datas, sha)
  }

  /** The whole result is what has been parsed, continued by the result of the rest. */
  ghost predicate Rest(whole: Result<seq<Bytes>, Error>, done: seq<Bytes>, rest: Result<seq<Bytes>, Error>) {
    if rest.Err? then whole == Err(rest.error) else whole == Ok(done + rest.value)
  }

  lemma RestStart(whole: Result<seq<Bytes>, Error>)
    ensures Rest(whole, [], whole)
  {
    assert whole.Ok? ==> [] + whole.value == whole.value;
  }

  lemma RestStep(whole: Result<seq<Bytes>, Error>, done: seq<Bytes>, output: Bytes, cursor: nat, entries: seq<Entry>,
      sha: Bytes -> Bytes)
    requires cursor <= |output| && entries != [] && Rest(whole, done, ParseFrom(output, cursor, entries, sha))
    ensures var one := ParseOne(output, cursor, entries[0], sha);
            if one.Err? then whole == Err(one.error) else Rest(whole, done + [one.value.0],
              ParseFrom(output, one.value.1, entries[1..], sha))
  {
    var one := ParseOne(output, cursor, entries[0], sha);
    if one.Ok? {
      var rest := ParseFrom(output, one.value.1, entries[1..], sha);
      assert rest.Ok? ==> done + ([one.value.0] + rest.value) == (done + [one.value.0]) + rest.value;
    }
  }

  function Datas(blobs: seq<Blob>): (d: seq<Bytes>)
    ensures |d| == |blobs| && forall i :: 0 <= i < |d| ==> d[i] == blobs[i].data
  {
    seq(|blobs|, i requires 0 <= i < |blobs| => blobs[i].data)
  }

  lemma DatasAppend(blobs: seq<Blob>, b: Blob)
    ensures Datas(blobs + [b]) == Datas(blobs) + [b.data]
  {
  }

  lemma ParseDecides(output: Bytes, entries: seq<Entry>, sha: Bytes -> Bytes)
    ensures var r := ParseFrom(output, 0, entries, sha);
            if r.Ok? then Holds(output, entries, r.value, sha) else NeverHolds(output, entries, sha)
  {
    assert output[0..] == output;
    var r := ParseFrom(output, 0, entries, sha);
    if r.Ok? {
      ParseSound(output, 0, entries, sha);
    }
    forall datas | Holds(output, entries, datas, sha) ensures r == Ok(datas) {
      var headers :| AllOk(headers, entries, datas, sha) && output == Assemble(headers, datas);
      ParseComplete(output, 0, entries, headers, datas, sha);
    }
  }

  /** The parser's loop. It succeeds exactly on output made of one acceptable record per entry, and
      returns the bodies with their names and modes, in order. */
  method ParseBlobBatch(output: Bytes, entries: seq<Entry>, sha: Bytes -> Bytes) returns (r: Result<seq<Blob>, Error>)
    ensures r.Ok? ==> Labelled(r.value, entries) && Holds(output, entries, Datas(r.value), sha)
    ensures r.Err? ==> NeverHolds(output, entries, sha) && ParseFrom(output, 0, entries, sha) == Err(r.error)
  {
    var cursor: nat, i := 0, 0;
    var blobs: seq<Blob> := [];
    ghost var whole := ParseFrom(output, 0, entries, sha);
    ghost var rest := whole;
    assert entries[0..] == entries && Datas(blobs) == [];
    RestStart(whole);
    ParseDecides(output, entries, sha);
    while i < |entries|
      invariant 0 <= i <= |entries| && cursor <= |output|
      invariant Labelled(blobs, entries[..i])
      invariant rest == ParseFrom(output, cursor, entries[i..], sha)
      invariant Rest(whole, Datas(blobs), rest)
    {
      ghost var left := entries[i..];
      assert left[0] == entries[i] && left[1..] == entries[i + 1..];
      RestStep(whole, Datas(blobs), output, cursor, left, sha);
      var one := ParseOne(output, cursor, entries[i], sha);
      if one.Err? {
        return Err(one.error);
      }
      var blob := Blob(entries[i].name, entries[i].mode, one.value.0);
      LabelledAppend(blobs, entries, i, one.value.0);
      DatasAppend(blobs, blob);
      blobs := blobs + [blob];
      cursor := one.value.1;
      i := i + 1;
      rest := ParseFrom(output, cursor, entries[i..], sha);
    }
    assert entries[i..] == [] && entries[..i] == entries;
    if cursor != |output| {
      return Err(TrailingOutput);
    }
    assert Datas(blobs) + [] == Datas(blobs);
    return Ok(blobs);
  }

  // ---- Printing and parsing back ------------------------------------------

  function CanonicalHeader(oid: Bytes, size: nat): (r: Bytes) { oid + [SPACE] + BLOB + [SPACE] + Dec(size) }

  /** Printable: ids are words, sizes have no more digits than can be read back, hashes agree. */
  predicate Printable(e: Entry, data: Bytes, sha: Bytes -> Bytes) {
    Word(e.oid) && |Dec(|data|)| <= MAX_INT_DIGITS && BlobHash(data, sha) == e.oid
  }

  lemma CanonicalRecordOk(e: Entry, data: Bytes, sha: Bytes -> Bytes)
    requires Printable(e, data, sha)
    ensures RecordOk(CanonicalHeader(e.oid, |data|), e, data, sha) &&
            Record(CanonicalHeader(e.oid, |data|), data) == Print(e.oid, data)
  {
    SplitHeader(e.oid, BLOB, Dec(|data|));
    ValueOfDec(|data|);
    assert NL !in Dec(|data|) && NL !in e.oid && NL !in BLOB;
  }

  lemma {:induction false} PrintedIsAssembled(entries: seq<Entry>, datas: seq<Bytes>, sha: Bytes -> Bytes)
      returns (headers: seq<Bytes>)
    requires |entries| == |datas| && forall i :: 0 <= i < |entries| ==> Printable(entries[i], datas[i], sha)
    ensures AllOk(headers, entries, datas, sha) && Assemble(headers, datas) == PrintAll(entries, datas)
  {
    if entries == [] {
      headers := [];
    } else {
      var rest := PrintedIsAssembled(entries[1..], datas[1..], sha);
      CanonicalRecordOk(entries[0], datas[0], sha);
      headers := [CanonicalHeader(entries[0].oid, |datas[0]|)] + rest;
      assert headers[1..] == rest;
    }
  }

  /** Printing the requested blobs and parsing the print returns them in order. */
  lemma PrintParseRoundTrip(entries: seq<Entry>, datas: seq<Bytes>, sha: Bytes -> Bytes)
    requires |entries| == |datas| && forall i :: 0 <= i < |entries| ==> Printable(entries[i], datas[i], sha)
    ensures ParseFrom(PrintAll(entries, datas), 0, entries, sha) == Ok(datas)
    ensures Holds(PrintAll(entries, datas), entries, datas, sha)
  {
    var output := PrintAll(entries, datas);
    var headers := PrintedIsAssembled(entries, datas, sha);
    assert output[0..] == output;
    ParseComplete(output, 0, entries, headers, datas, sha);
  }

  // ---- Canonical headers --------------------------------------------------

  lemma {:induction false} SplitGivesWords(s: Bytes)
    ensures forall w :: w in Split(s) ==> Word(w)
    decreases |s|
  {
    if s == [] {
    } else if IsSpace(s[0]) {
      SplitGivesWords(s[1..]);
    } else {
      SplitGivesWords(s[WordLength(s)..]);
    }
  }

  /** The words with one space between each two. */
  function Spaced(words: seq<Bytes>): (s: Bytes) {
    if words == [] then [] else if |words| == 1 then words[0] else words[0] + [SPACE] + Spaced(words[1..])
  }

  /** No white space at the ends, and only single spaces inside. */
  predicate SingleSpaced(s: Bytes) {
    && s != [] && !IsSpace(s[0]) && !IsSpace(s[|s| - 1])
    && forall i :: 0 <= i < |s| - 1 && IsSpace(s[i]) ==> s[i] == SPACE && !IsSpace(s[i + 1])
  }

  lemma SingleSpacedTail(s: Bytes, n: nat)
    requires SingleSpaced(s) && n < |s| && IsSpace(s[n])
    ensures s[n] == SPACE && n + 1 < |s| && SingleSpaced(s[n + 1..])
  {
    var rest := s[n + 1..];
    assert n < |s| - 1;
    assert forall i :: 0 <= i < |rest| ==> rest[i] == s[n + 1 + i];
  }

  lemma CutAt(s: Bytes, n: nat)
    requires n < |s|
    ensures s == s[..n] + [s[n]] + s[n + 1..] && s == s[..n] + s[n..] && s[n..][1..] == s[n + 1..]
  {
  }

  lemma OnlyWord(s: Bytes)
    requires Word(s)
    ensures Split(s) == [s]
  {
    SplitWord(s, []);
    assert s + [] == s;
  }

  lemma FirstWord(s: Bytes, n: nat)
    requires n == WordLength(s) && 0 < n < |s|
    ensures Split(s) == [s[..n]] + Split(s[n + 1..])
  {
    CutAt(s, n);
    SplitWord(s[..n], s[n..]);
  }

  lemma SpacedAfter(w: Bytes, words: seq<Bytes>)
    requires words != []
    ensures Spaced([w] + words) == w + [SPACE] + Spaced(words)
  {
    assert ([w] + words)[1..] == words;
  }

  /** Single-spaced text is its words, spaced. */
  lemma {:induction false} SpacedSplit(s: Bytes)
    requires SingleSpaced(s)
    ensures Split(s) != [] && Spaced(Split(s)) == s
    decreases |s|
  {
    var n := WordLength(s);
    if n == |s| {
      OnlyWord(s);
    } else {
      FirstWord(s, n);
      SingleSpacedTail(s, n);
      SpacedSplit(s[n + 1..]);
      SpacedAfter(s[..n], Split(s[n + 1..]));
      CutAt(s, n);
    }
  }

  lemma WordIsSingleSpaced(w: Bytes)
    requires Word(w)
    ensures SingleSpaced(w)
  {
  }

  lemma SingleSpacedAfter(w: Bytes, rest: Bytes)
    requires Word(w) && SingleSpaced(rest)
    ensures SingleSpaced(w + [SPACE] + rest)
  {
    var s, n := w + [SPACE] + rest, |w|;
    assert forall i :: 0 <= i < |rest| ==> s[n + 1 + i] == rest[i];
    forall i | 0 <= i < |s| - 1 && IsSpace(s[i]) ensures s[i] == SPACE && !IsSpace(s[i + 1]) {
      if i > n {
        assert s[i] == rest[i - n - 1] && s[i + 1] == rest[i - n];
      }
    }
  }

  predicate NoLeadingZero(d: Bytes) { d != [] && (d[0] == 48 ==> |d| == 1) }

  lemma {:induction false} ValuePositive(d: Bytes)
    requires AllDigits(d) && d != [] && d[0] != 48
    ensures Value(d) >= 1
  {
    if |d| > 1 {
      ValuePositive(d[..|d| - 1]);
    } else {
      assert d[..0] == [];
    }
  }

  /** A numeral without leading zero is the decimal form of its value. */
  lemma {:induction false} DecOfValue(d: Bytes)
    requires AllDigits(d) && NoLeadingZero(d)
    ensures Dec(Value(d)) == d
  {
    var n := |d| - 1;
    assert d == d[..n] + [d[n]];
    if n == 0 {
      assert d[..0] == [];
    } else {
      ValuePositive(d[..n]);
      DecOfValue(d[..n]);
    }
  }

  lemma {:induction false} DecNoLeadingZero(n: nat)
    ensures NoLeadingZero(Dec(n)) && (n > 0 ==> Dec(n)[0] != 48)
  {
    if n < 10 {
    } else {
      DecNoLeadingZero(n / 10);
    }
  }

  lemma SpacesRegrouped(a: Bytes, b: Bytes, c: Bytes)
    ensures a + [SPACE] + (b + [SPACE] + c) == a + [SPACE] + b + [SPACE] + c
  {
  }

  lemma SpacedThree(a: Bytes, b: Bytes, c: Bytes)
    ensures Spaced([a, b, c]) == a + [SPACE] + b + [SPACE] + c
  {
    assert [a] + [b, c] == [a, b, c] && [b] + [c] == [b, c] && Spaced([c]) == c;
    SpacedAfter(b, [c]);
    SpacedAfter(a, [b, c]);
    SpacesRegrouped(a, b, c);
  }

  /** An accepted header is the printed one exactly when it is single-spaced and its size has no leading zero. */
  lemma CanonicalIff(header: Bytes, oid: Bytes)
    requires HeaderOk(header, oid)
    ensures header == CanonicalHeader(oid, SizeOf(header)) <==> SingleSpaced(header) && NoLeadingZero(Split(header)[2])
  {
    var f := Split(header);
    SplitGivesWords(header);
    if SingleSpaced(header) && NoLeadingZero(f[2]) {
      SpacedSplit(header);
      DecOfValue(f[2]);
      SpacedThree(f[0], f[1], f[2]);
      assert f == [f[0], f[1], f[2]];
    }
    if header == CanonicalHeader(oid, SizeOf(header)) {
      var d := Dec(SizeOf(header));
      DecNoLeadingZero(SizeOf(header));
      WordIsSingleSpaced(d);
      SingleSpacedAfter(BLOB, d);
      SingleSpacedAfter(oid, BLOB + [SPACE] + d);
      SpacesRegrouped(oid, BLOB, d);
      SplitHeader(oid, BLOB, d);
    }
  }

  lemma HeaderLength(header: Bytes, data: Bytes, rest: Bytes)
    requires NL !in header
    ensures FindNewline(Record(header, data) + rest, 0) == Some(|header|)
  {
    var s, n := Record(header, data) + rest, |header|;
    assert s[n] == NL;
    forall k | 0 <= k < n ensures s[k] != NL {
      assert s[k] == header[k] && header[k] in header;
    }
    var r := FindNewline(s, 0);
    assert r.Some? && r.value == n;
  }

  /** Records with newline-free headers and bodies of one length are equal only piece by piece. */
  lemma RecordsEqual(a: Bytes, b: Bytes, data: Bytes, x: Bytes, y: Bytes)
    requires NL !in a && NL !in b && Record(a, data) + x == Record(b, data) + y
    ensures a == b && x == y
  {
    var s := Record(a, data) + x;
    assert s == Record(b, data) + y;
    HeaderLength(a, data, x);
    HeaderLength(b, data, y);
    assert a == s[..|a|] && b == s[..|b|];
    assert x == s[|Record(a, data)|..] && y == s[|Record(b, data)|..];
  }

  /** An accepted header's id is free of white space, and so is the header printed for it. */
  lemma CanonicalHasNoNewline(header: Bytes, e: Entry, data: Bytes, sha: Bytes -> Bytes)
    requires RecordOk(header, e, data, sha)
    ensures NL !in CanonicalHeader(e.oid, |data|)
  {
    SplitGivesWords(header);
    assert Split(header)[0] in Split(header);
    assert NL !in e.oid && NL !in BLOB && NL !in Dec(|data|);
  }

  ghost predicate AllCanonical(headers: seq<Bytes>, entries: seq<Entry>, datas: seq<Bytes>)
    requires |headers| == |entries| == |datas|
  {
    forall i :: 0 <= i < |headers| ==> headers[i] == CanonicalHeader(entries[i].oid, |datas[i]|)
  }

  lemma PrintIsRecord(oid: Bytes, data: Bytes)
    ensures Print(oid, data) == Record(CanonicalHeader(oid, |data|), data)
  {
  }

  lemma AllCanonicalHead(headers: seq<Bytes>, entries: seq<Entry>, datas: seq<Bytes>)
    requires |headers| == |entries| == |datas| > 0
    ensures AllCanonical(headers, entries, datas) <==>
            headers[0] == CanonicalHeader(entries[0].oid, |datas[0]|) &&
              AllCanonical(headers[1..], entries[1..], datas[1..])
  {
    if AllCanonical(headers[1..], entries[1..], datas[1..]) &&
      headers[0] == CanonicalHeader(entries[0].oid, |datas[0]|) {
      forall i | 0 <= i < |headers| ensures headers[i] == CanonicalHeader(entries[i].oid, |datas[i]|) {
        if i > 0 {
          assert headers[1..][i - 1] == headers[i] && entries[1..][i - 1] == entries[i] &&
                 datas[1..][i - 1] == datas[i];
        }
      }
    }
  }

  /** Accepted output is the print of the requested blobs exactly when every header is canonical: there, and
      nowhere else, is the parser the inverse of the printer. */
  lemma {:induction false} AssembledIsPrintedIff(headers: seq<Bytes>, entries: seq<Entry>, datas: seq<Bytes>,
      sha: Bytes -> Bytes)
    requires AllOk(headers, entries, datas, sha)
    ensures Assemble(headers, datas) == PrintAll(entries, datas) <==> AllCanonical(headers, entries, datas)
  {
    if entries == [] {
    } else {
      var canonical := CanonicalHeader(entries[0].oid, |datas[0]|);
      var x, y := Assemble(headers[1..], datas[1..]), PrintAll(entries[1..], datas[1..]);
      AssembledIsPrintedIff(headers[1..], entries[1..], datas[1..], sha);
      CanonicalHasNoNewline(headers[0], entries[0], datas[0], sha);
      PrintIsRecord(entries[0].oid, datas[0]);
      if Record(headers[0], datas[0]) + x == Record(canonical, datas[0]) + y {
        RecordsEqual(headers[0], canonical, datas[0], x, y);
      }
      AllCanonicalHead(headers, entries, datas);
    }
  }

  lemma ZerosValue()
    ensures AllDigits([48, 48]) && Value([48, 48]) == 0
  {
    DigitAppended([], 48);
    DigitAppended([48], 48);
    var zeros: Bytes := [48, 48];
    var zero: Bytes := [48];
    assert zeros == zero + [48] && zero == [] + [48];
  }

  lemma SingleRecord(header: Bytes, e: Entry, sha: Bytes -> Bytes)
    requires RecordOk(header, e, [], sha)
    ensures ParseFrom(Record(header, []), 0, [e], sha) == Ok([[]])
  {
    var output := Record(header, []);
    assert output[0..] == output == Assemble([header], [[]]);
    ParseComplete(output, 0, [e], [header], [[]], sha);
  }

  /** The parser also takes headers git never prints, such as a size with a leading zero. */
  lemma LeadingZeroAccepted(e: Entry, sha: Bytes -> Bytes)
    requires Word(e.oid) && BlobHash([], sha) == e.oid
    ensures var header := e.oid + [SPACE] + BLOB + [SPACE] + [48, 48];
            ParseFrom(Record(header, []), 0, [e], sha) == Ok([[]]) && Record(header, []) != Print(e.oid, [])
  {
    var zeros: Bytes := [48, 48];
    var header := e.oid + [SPACE] + BLOB + [SPACE] + zeros;
    ZerosValue();
    SplitHeader(e.oid, BLOB, zeros);
    assert NL !in e.oid && NL !in BLOB && NL !in zeros;
    assert RecordOk(header, e, [], sha);
    SingleRecord(header, e, sha);
    assert |Dec(0)| == 1;
    assert |Record(header, [])| == |e.oid| + 10 && |Print(e.oid, [])| == |e.oid| + 9;
  }
}
