/** UTF-16 text as JavaScript strings hold it, and the cutting of message bodies. */
module Utf16 {
  type unit = u: int | 0 <= u < 0x10000
  type Text = seq<unit>

  predicate High(u: unit) { 0xD800 <= u < 0xDC00 }

  predicate Low(u: unit) { 0xDC00 <= u < 0xE000 }

  /** A high surrogate stands exactly before every low one: section 2.2 of RFC 2781. */
  ghost predicate WellFormed(s: Text) {
    && (forall i :: 0 <= i < |s| && High(s[i]) ==> i + 1 < |s| && Low(s[i + 1]))
    && (forall i :: 0 <= i < |s| && Low(s[i]) ==> i > 0 && High(s[i - 1]))
  }

  predicate PairFirst(s: Text) { |s| > 1 && High(s[0]) && Low(s[1]) }

  /** `points.join("")`. */
  function Join(p: seq<Text>): (r: Text) { if p == [] then [] else p[0] + Join(p[1..]) }

  /** `Array.from(s)`: the code points, each as its one or two units. A surrogate without partner stands alone. */
  function Points(s: Text): (p: seq<Text>)
    ensures |p| <= |s| && Join(p) == s
    decreases |s|
  {
    if s == [] then []
    else if PairFirst(s) then
      assert s == s[..2] + s[2..];
      [s[..2]] + Points(s[2..])
    else
      assert s == s[..1] + s[1..];
      [s[..1]] + Points(s[1..])
  }

  /** Bytes of one unit outside a pair; a lone surrogate is stored as U+FFFD. */
  function UnitBytes(u: unit): (r: nat) { if u < 0x80 then 1 else if u < 0x800 then 2 else 3 }

  /** The two blocks of 1024 surrogates: section 2.2 of RFC 2781. */
  lemma SurrogateBlocks(u: unit)
    ensures High(u) <==> u / 1024 == 54
    ensures Low(u) <==> u / 1024 == 55
  {
  }

  /** UTF-8 of one unit outside a pair, as section 3 of RFC 3629 has it; U+FFFD stands for a lone surrogate. */
  function Encoded(u: unit): (bytes: seq<int>) {
    if u / 1024 in {54, 55} then [0xEF, 0xBF, 0xBD]
    else if u <= 0x7F then [u]
    else if u <= 0x7FF then [0xC0 + u / 64, 0x80 + u % 64]
    else [0xE0 + u / 4096, 0x80 + u / 64 % 64, 0x80 + u % 64]
  }

  /** The code point that the bytes stand for. */
  function Decoded(bytes: seq<int>): (u: int)
    requires 1 <= |bytes| <= 3
  {
    if |bytes| == 1 then bytes[0]
    else if |bytes| == 2 then (bytes[0] - 0xC0) * 64 + (bytes[1] - 0x80)
    else (bytes[0] - 0xE0) * 4096 + (bytes[1] - 0x80) * 64 + (bytes[2] - 0x80)
  }

  /** The encoding takes that many bytes, its first byte tells how many, and it is undone by decoding. */
  lemma EncodedIs(u: unit)
    ensures var b := Encoded(u);
            && |b| == UnitBytes(u) && 1 <= |b| <= 3 && (forall k :: 0 <= k < |b| ==> 0 <= b[k] < 256)
            && (if |b| == 1 then b[0] < 0x80 else if |b| == 2 then 0xC0 <= b[0] < 0xE0 else 0xE0 <= b[0] < 0xF0)
            && (forall k :: 1 <= k < |b| ==> 0x80 <= b[k] < 0xC0)
            && Decoded(b) == if High(u) || Low(u) then 0xFFFD else u
  {
    if u / 1024 in {54, 55} || u <= 0x7FF {
    } else {
      assert u / 64 / 64 == u / 4096;
    }
  }

  /** Length in UTF-8. */
  function Utf8(s: Text): (n: nat)
    ensures |s| <= n <= 3 * |s|
  {
    if s == [] then 0
    else if PairFirst(s) then 4 + Utf8(s[2..])
    else UnitBytes(s[0]) + Utf8(s[1..])
  }

  /** Joined text needs the bytes of its parts, or fewer where a pair is completed. */
  lemma {:induction false} Utf8Join(a: Text, b: Text)
    ensures Utf8(a + b) <= Utf8(a) + Utf8(b)
    ensures b == [] || !Low(b[0]) ==> Utf8(a + b) == Utf8(a) + Utf8(b)
    decreases |a|
  {
    if a == [] {
      assert a + b == b;
    } else {
      var n := if PairFirst(a) then 2 else 1;
      assert (a + b)[n..] == a[n..] + b;
      Utf8Join(a[n..], b);
      if |a| == 1 && PairFirst(a + b) {
        assert (a + b)[2..] == b[1..];
        assert Utf8(b) == 3 + Utf8(b[1..]);
      }
    }
  }

  predicate AsciiOnly(s: Text) { forall i :: 0 <= i < |s| ==> s[i] < 0x80 }

  lemma {:induction false} Utf8Ascii(s: Text)
    requires AsciiOnly(s)
    ensures Utf8(s) == |s|
  {
    if s == [] {
    } else {
      Utf8Ascii(s[1..]);
    }
  }

  function Repeat(u: unit, n: nat): (s: Text)
    ensures |s| == n && forall i :: 0 <= i < n ==> s[i] == u
  {
    seq(n, _ => u)
  }

  lemma {:induction false} Utf8Repeat(u: unit, n: nat)
    requires !High(u) && !Low(u)
    ensures Utf8(Repeat(u, n)) == UnitBytes(u) * n
  {
    if n == 0 {
    } else {
      assert Repeat(u, n)[1..] == Repeat(u, n - 1);
      Utf8Repeat(u, n - 1);
    }
  }
}

module Excerpt {
  import opened Utf16

  const ELLIPSIS: Text := [0x2026]

  /** `excerptBody`. */
  function ExcerptBody(body: Text, max: nat): (r: Text) {
    if |body| <= max then body
    else
      var points := Points(body);
      if |points| > max then Join(points[..max]) + ELLIPSIS else body
  }

  lemma TakePoint(s: Text, k: nat)
    requires 0 < k <= |Points(s)|
    ensures var n := if PairFirst(s) then 2 else 1;
            && |s| >= n && k - 1 <= |Points(s[n..])| && Points(s)[..k] == [s[..n]] + Points(s[n..])[..k - 1]
            && Join(Points(s)[..k]) == s[..n] + Join(Points(s[n..])[..k - 1])
  {
    var n := if PairFirst(s) then 2 else 1;
    var taken := Points(s)[..k];
    assert taken == [s[..n]] + Points(s[n..])[..k - 1];
    assert taken[1..] == Points(s[n..])[..k - 1];
  }

  lemma Associate<T>(a: seq<T>, b: seq<T>, c: seq<T>)
    ensures (a + b) + c == a + (b + c)
  {
  }

  /** What is kept starts like the text it is kept from, or like what follows. */
  lemma PrefixContinues(s: Text, k: nat, t: Text)
    requires k <= |Points(s)|
    ensures var kept := Join(Points(s)[..k]) + t;
            if k == 0 then kept == t else kept != [] && s != [] && kept[0] == s[0]
  {
    if k > 0 {
      TakePoint(s, k);
    }
  }

  /** `first` is one code point when `rest` follows. */
  predicate IsFirstPoint(first: Text, rest: Text) {
    if |first| == 1 then !(High(first[0]) && rest != [] && Low(rest[0])) else |first| == 2 && PairFirst(first)
  }

  lemma HeadPoint(first: Text, rest: Text)
    requires IsFirstPoint(first, rest)
    ensures Points(first + rest) == [first] + Points(rest)
  {
    var s := first + rest;
    assert s[..|first|] == first && s[|first|..] == rest;
  }

  lemma PrefixStep(s: Text, k: nat, t: Text)
    requires 0 < k <= |Points(s)| && (t == [] || !Low(t[0]))
    requires var rest := s[if PairFirst(s) then 2 else 1..];
             Points(Join(Points(rest)[..k - 1]) + t) == Points(rest)[..k - 1] + Points(t)
    ensures Points(Join(Points(s)[..k]) + t) == Points(s)[..k] + Points(t)
  {
    var n := if PairFirst(s) then 2 else 1;
    var first, kept := s[..n], Points(s[n..])[..k - 1];
    TakePoint(s, k);
    PrefixContinues(s[n..], k - 1, t);
    HeadPoint(first, Join(kept) + t);
    Associate(first, Join(kept), t);
    Associate([first], kept, Points(t));
  }

  /** The first `k` code points followed by text that does not continue a pair are read back as they were. */
  lemma {:induction false} PrefixPoints(s: Text, k: nat, t: Text)
    requires k <= |Points(s)| && (t == [] || !Low(t[0]))
    ensures Points(Join(Points(s)[..k]) + t) == Points(s)[..k] + Points(t)
    decreases k
  {
    if k == 0 {
      assert Join(Points(s)[..0]) + t == t;
    } else {
      PrefixPoints(s[if PairFirst(s) then 2 else 1..], k - 1, t);
      PrefixStep(s, k, t);
    }
  }

  /** The excerpt consists of exactly the first `max` code points, and an ellipsis only if there are more:
      no code point is split, joined or changed. */
  lemma ExcerptKeepsPoints(body: Text, max: nat)
    ensures var p := Points(body);
            Points(ExcerptBody(body, max)) == if |p| <= max then p else p[..max] + [ELLIPSIS]
  {
    var p := Points(body);
    if |p| > max {
      PrefixPoints(body, max, ELLIPSIS);
      assert ELLIPSIS[..1] == ELLIPSIS && ELLIPSIS[1..] == [];
    }
  }

  /** The comparison of lengths that skips counting never changes the answer. */
  lemma FastPathAgrees(body: Text, max: nat)
    ensures ExcerptBody(body, max) == if |Points(body)| > max then Join(Points(body)[..max]) + ELLIPSIS else body
  {
  }

  /** A code point that stands for a character. */
  predicate Whole(p: Text) { (|p| == 1 && !High(p[0]) && !Low(p[0])) || (|p| == 2 && PairFirst(p)) }

  predicate AllWhole(p: seq<Text>) { forall i :: 0 <= i < |p| ==> Whole(p[i]) }

  lemma WholeAppend(first: Text, rest: seq<Text>)
    ensures AllWhole([first] + rest) <==> Whole(first) && AllWhole(rest)
  {
    var all := [first] + rest;
    assert forall i :: 0 <= i < |rest| ==> all[i + 1] == rest[i];
    if AllWhole(all) {
      assert Whole(all[0]);
      forall i | 0 <= i < |rest| ensures Whole(rest[i]) {
        assert Whole(all[i + 1]);
      }
    }
  }

  lemma WellFormedTail(first: Text, rest: Text)
    requires IsFirstPoint(first, rest)
    ensures WellFormed(first + rest) <==> Whole(first) && WellFormed(rest)
  {
    var s, n := first + rest, |first|;
    assert forall i :: 0 <= i < |rest| ==> s[n + i] == rest[i];
    assert s[0] == first[0] && s[n - 1] == first[n - 1];
    if WellFormed(s) {
      forall i | 0 <= i < |rest| && High(rest[i]) ensures i + 1 < |rest| && Low(rest[i + 1]) {
        assert High(s[n + i]);
      }
      forall i | 0 <= i < |rest| && Low(rest[i]) ensures i > 0 && High(rest[i - 1]) {
        assert Low(s[n + i]);
        assert i > 0 ==> s[n + i - 1] == rest[i - 1];
      }
    }
    if Whole(first) && WellFormed(rest) {
      forall i | 0 <= i < |s| && High(s[i]) ensures i + 1 < |s| && Low(s[i + 1]) {
        assert i >= n ==> High(rest[i - n]);
      }
      forall i | 0 <= i < |s| && Low(s[i]) ensures i > 0 && High(s[i - 1]) {
        assert i >= n ==> Low(rest[i - n]);
      }
    }
  }

  lemma {:induction false} WellFormedIffWhole(s: Text)
    ensures WellFormed(s) <==> AllWhole(Points(s))
    decreases |s|
  {
    if s == [] {
    } else {
      var n := if PairFirst(s) then 2 else 1;
      var first, rest := s[..n], s[n..];
      WellFormedIffWhole(rest);
      assert s == first + rest && Points(s) == [first] + Points(rest);
      WholeAppend(first, Points(rest));
      WellFormedTail(first, rest);
    }
  }

  /** Well-formed text stays well-formed: no surrogate pair is split. */
  lemma ExcerptWellFormed(body: Text, max: nat)
    requires WellFormed(body)
    ensures WellFormed(ExcerptBody(body, max))
  {
    WellFormedIffWhole(body);
    WellFormedIffWhole(ExcerptBody(body, max));
    ExcerptKeepsPoints(body, max);
    assert Whole(ELLIPSIS);
  }

  /** Cutting by units, which the excerpt avoids, splits a pair. */
  lemma UnitCutSplitsPair()
    ensures exists s: Text, max: nat :: max <= |s| && WellFormed(s) && !WellFormed(s[..max])
  {
    var s: Text := [0xD83D, 0xDE00];
    assert WellFormed(s) && High(s[..1][0]);
  }
}
