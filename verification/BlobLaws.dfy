/** The output of `git cat-file --batch`, byte by byte: what is printed, hashed and accepted. */
module BlobLaws {
  import opened Prelude
  import opened BlobBatch

  // ---- Printing -----------------------------------------------------------

  /** The size is printed in decimal, as text is. */
  lemma {:induction false} DecIsDecimal(n: nat)
    ensures |Dec(n)| == |Decimal(n)| && forall k :: 0 <= k < |Dec(n)| ==> Dec(n)[k] == Decimal(n)[k] as int
  {
    if n < 10 {
    } else {
      DecIsDecimal(n / 10);
    }
  }

  lemma Joins(a: Bytes, b: Bytes, c: Bytes)
    ensures a + b + c == a + (b + c)
  {
  }

  /** From position `at` on, the text shows the part. */
  predicate Shows(s: Bytes, at: nat, part: Bytes) { at + |part| <= |s| && s[at..at + |part|] == part }

  lemma ShowsMiddle(a: Bytes, part: Bytes, b: Bytes)
    ensures Shows(a + part + b, |a|, part)
  {
  }

  /** A printed blob: the identity, ` blob `, the size in decimal, a newline, the bytes and a newline. */
  lemma PrintIs(oid: Bytes, data: Bytes)
    ensures var p, n, d := Print(oid, data), |oid|, Dec(|data|);
            && |p| == n + 6 + |d| + 1 + |data| + 1
            && Shows(p, 0, oid) && Shows(p, n + 6, d) && Shows(p, n + 6 + |d| + 1, data)
            && p[n] == 0x20 && p[n + 1] == 0x62 && p[n + 2] == 0x6C && p[n + 3] == 0x6F && p[n + 4] == 0x62
            && p[n + 5] == 0x20
            && p[n + 6 + |d|] == 0x0A && p[|p| - 1] == 0x0A
  {
    var d: Bytes := Dec(|data|);
    var start := oid + [SPACE] + BLOB + [SPACE];
    var rest := [NL] + data + [NL];
    assert Print(oid, data) == start + d + rest;
    ShowsMiddle(start, d, rest);
    ShowsMiddle(start + d + [NL], data, [NL]);
  }

  /** What Git hashes for a blob: its type and size, a NUL and its bytes. */
  lemma HashedIs(data: Bytes, sha: Bytes -> Bytes)
    ensures BlobHash(data, sha) == sha([0x62, 0x6C, 0x6F, 0x62, 0x20] + Dec(|data|) + [0] + data)
  {
    assert BLOB + [SPACE] == [0x62, 0x6C, 0x6F, 0x62, 0x20];
  }

  // ---- Headers ------------------------------------------------------------

  const WHITE: set<int> := {0x09, 0x0A, 0x0B, 0x0C, 0x0D, 0x20}

  predicate White(s: Bytes) { forall k :: 0 <= k < |s| ==> s[k] in WHITE }

  /** At least one byte, none of them white space. */
  predicate Solid(s: Bytes) { s != [] && forall k :: 0 <= k < |s| ==> s[k] !in WHITE }

  lemma {:induction false} GapSplits(gap: Bytes, rest: Bytes)
    requires White(gap)
    ensures Split(gap + rest) == Split(rest)
  {
    if gap == [] {
      assert gap + rest == rest;
    } else {
      assert (gap + rest)[1..] == gap[1..] + rest;
      GapSplits(gap[1..], rest);
    }
  }

  lemma GapGrows(s: Bytes, gap: Bytes, word: Bytes, rest: Bytes)
    requires s != [] && s[1..] == gap + word + rest && White(gap) && BlobBatch.IsSpace(s[0])
    ensures s == [s[0]] + gap + word + rest && White([s[0]] + gap)
  {
    assert s == [s[0]] + s[1..];
  }

  /** The first word of a text that has one, and what stands before and after it. */
  lemma {:induction false} FirstWordOf(s: Bytes) returns (gap: Bytes, word: Bytes, rest: Bytes)
    requires Split(s) != []
    ensures s == gap + word + rest && White(gap) && Solid(word) && (rest == [] || rest[0] in WHITE)
    ensures Split(s) == [word] + Split(rest)
  {
    if BlobBatch.IsSpace(s[0]) {
      var g, w, r := FirstWordOf(s[1..]);
      gap, word, rest := [s[0]] + g, w, r;
      GapGrows(s, g, w, r);
    } else {
      var n := WordLength(s);
      gap, word, rest := [], s[..n], s[n..];
    }
  }

  lemma {:induction false} NoWords(s: Bytes)
    requires Split(s) == []
    ensures White(s)
  {
    if s == [] {
    } else {
      NoWords(s[1..]);
    }
  }

  lemma WordSplits(word: Bytes, rest: Bytes)
    requires Solid(word) && (rest == [] || rest[0] in WHITE)
    ensures Split(word + rest) == [word] + Split(rest)
  {
    SplitWord(word, rest);
  }

  lemma WhiteSplits(s: Bytes)
    requires White(s)
    ensures Split(s) == []
  {
    GapSplits(s, []);
    assert s + [] == s;
  }

  /** Three words, with white space between them and perhaps around them. */
  predicate ThreeWords(s: Bytes, gaps: seq<Bytes>, a: Bytes, b: Bytes, c: Bytes) {
    && |gaps| == 4 && White(gaps[0]) && White(gaps[1]) && White(gaps[2]) && White(gaps[3]) && gaps[1] != []
    && gaps[2] != []
    && Solid(a) && Solid(b) && Solid(c)
    && s == gaps[0] + (a + (gaps[1] + (b + (gaps[2] + (c + gaps[3])))))
  }

  lemma ThreeSplit(s: Bytes, gaps: seq<Bytes>, a: Bytes, b: Bytes, c: Bytes)
    requires ThreeWords(s, gaps, a, b, c)
    ensures Split(s) == [a, b, c]
  {
    var r3 := gaps[3];
    var r2 := gaps[2] + (c + r3);
    var r1 := gaps[1] + (b + r2);
    WhiteSplits(r3);
    WordSplits(c, r3);
    GapSplits(gaps[2], c + r3);
    WordSplits(b, r2);
    GapSplits(gaps[1], b + r2);
    WordSplits(a, r1);
    GapSplits(gaps[0], a + r1);
  }

  lemma SplitsInThree(s: Bytes) returns (gaps: seq<Bytes>)
    requires |Split(s)| == 3
    ensures ThreeWords(s, gaps, Split(s)[0], Split(s)[1], Split(s)[2])
  {
    var g0, a, r1 := FirstWordOf(s);
    var g1, b, r2 := FirstWordOf(r1);
    var g2, c, r3 := FirstWordOf(r2);
    NoWords(r3);
    gaps := [g0, g1, g2, r3];
    Joins(g0, a, r1);
    Joins(g1, b, r2);
    Joins(g2, c, r3);
  }

  predicate DigitBytes(s: Bytes)
  {
    forall k :: 0 <= k < |s| ==> s[k] in {0x30, 0x31, 0x32, 0x33, 0x34, 0x35, 0x36, 0x37, 0x38, 0x39}
  }

  /** A header with these gaps and this size. */
  predicate Header(header: Bytes, oid: Bytes, gaps: seq<Bytes>, size: Bytes) {
    ThreeWords(header, gaps, oid, [0x62, 0x6C, 0x6F, 0x62], size) && DigitBytes(size) && |size| <= 4300
  }

  /** A header is accepted exactly as the requested identity, the word `blob` and up to 4300 digits. */
  lemma HeaderIff(header: Bytes, oid: Bytes)
    ensures HeaderOk(header, oid) <==> exists gaps, size :: Header(header, oid, gaps, size)
  {
    assert BLOB == [0x62, 0x6C, 0x6F, 0x62];
    if HeaderOk(header, oid) {
      var gaps := SplitsInThree(header);
      assert DigitBytes(Split(header)[2]);
      assert Header(header, oid, gaps, Split(header)[2]);
    }
    if gaps, size :| Header(header, oid, gaps, size) {
      ThreeSplit(header, gaps, oid, [0x62, 0x6C, 0x6F, 0x62], size);
    }
  }
}
