/** `uuidv7`: message ids that sort by the time they were made (section 5.7 of RFC 9562). */
module Ids {
  import opened Prelude

  /** The six bytes of the time, most significant first. */
  function TimeBytes(now: nat): (t: seq<byte>)
    ensures |t| == 6
  {
    [now / 0x100_0000_0000 % 256, now / 0x1_0000_0000 % 256, now / 0x100_0000 % 256, now / 0x1_0000 % 256,
      now / 0x100 % 256, now % 256]
  }

  /** The sixteen bytes, as filled in index by index. */
  function Bytes(now: nat, rand: seq<byte>): (b: seq<byte>)
    requires |rand| == 10
    ensures |b| == 16
  {
    TimeBytes(now) + [0x70 + rand[0] % 16, rand[1], 0x80 + rand[2] % 64] + rand[3..]
  }

  function HexDigit(d: nat): (c: char)
    requires d < 16
    ensures '0' <= c <= '9' || 'a' <= c <= 'f'
  {
    if d < 10 then '0' + d as char else 'a' + (d - 10) as char
  }

  function Hex(b: seq<byte>): (s: string)
    ensures |s| == 2 * |b|
  {
    if b == [] then "" else [HexDigit(b[0] / 16), HexDigit(b[0] % 16)] + Hex(b[1..])
  }

  /** The text form with its four hyphens. */
  function Dashed(hex: string): (s: string)
    requires |hex| == 32
    ensures |s| == 36
  {
    hex[..8] + "-" + hex[8..12] + "-" + hex[12..16] + "-" + hex[16..20] + "-" + hex[20..]
  }

  function UuidV7(now: nat, rand: seq<byte>): (s: string)
    requires |rand| == 10
    ensures |s| == 36
  {
    Dashed(Hex(Bytes(now, rand)))
  }

  /** The filling of the byte array. */
  method MakeUuid(now: nat, rand: seq<byte>) returns (s: string)
    requires |rand| == 10
    ensures s == UuidV7(now, rand)
  {
    var bytes := new byte[16];
    var t := TimeBytes(now);
    bytes[0], bytes[1], bytes[2], bytes[3], bytes[4], bytes[5] := t[0], t[1], t[2], t[3], t[4], t[5];
    bytes[6], bytes[7], bytes[8] := 0x70 + rand[0] % 16, rand[1], 0x80 + rand[2] % 64;
    for i := 9 to 16
      invariant bytes[..9] == Bytes(now, rand)[..9]
      invariant forall k :: 9 <= k < i ==> bytes[k] == rand[k - 6]
    {
      bytes[i] := rand[i - 6];
    }
    assert bytes[..] == Bytes(now, rand);
    s := Dashed(Hex(bytes[..]));
  }

  /** Byte order. */
  predicate BytesLess(a: seq<byte>, b: seq<byte>) {
    if b == [] then false else if a == [] then true else a[0] < b[0] || (a[0] == b[0] && BytesLess(a[1..], b[1..]))
  }

  lemma {:induction false} HexKeepsOrder(a: seq<byte>, b: seq<byte>)
    requires |a| == |b| && BytesLess(a, b)
    ensures Less(Hex(a), Hex(b))
  {
    var x, y := Hex(a), Hex(b);
    assert x[1..][1..] == Hex(a[1..]) && y[1..][1..] == Hex(b[1..]);
    if a[0] == b[0] {
      HexKeepsOrder(a[1..], b[1..]);
    } else {
      assert a[0] / 16 < b[0] / 16 || (a[0] / 16 == b[0] / 16 && a[0] % 16 < b[0] % 16);
    }
  }

  /** Hyphens before a position of the text form. */
  function Hyphens(p: nat): (r: nat)
  {
    if p <= 8 then 0 else if p <= 13 then 1 else if p <= 18 then 2 else if p <= 23 then 3 else 4
  }

  lemma DashedAt(hex: string, p: nat)
    requires |hex| == 32 && p < 36
    ensures p - Hyphens(p) < 32
    ensures Dashed(hex)[p] == if p in {8, 13, 18, 23} then '-' else hex[p - Hyphens(p)]
  {
  }

  /** Position of a digit in the text form. */
  function Shifted(i: nat): (r: nat)
  {
    if i < 8 then i else if i < 12 then i + 1 else if i < 16 then i + 2 else if i < 20 then i + 3 else i + 4
  }

  lemma DashedSame(a: string, b: string, i: nat)
    requires |a| == |b| == 32 && i < 32 && a[..i] == b[..i]
    ensures forall k :: 0 <= k < Shifted(i) ==> Dashed(a)[k] == Dashed(b)[k]
  {
    forall k | 0 <= k < Shifted(i) ensures Dashed(a)[k] == Dashed(b)[k] {
      DashedAt(a, k);
      DashedAt(b, k);
      if k !in {8, 13, 18, 23} {
        var j := k - Hyphens(k);
        assert j < i && a[..i][j] == b[..i][j];
      }
    }
  }

  lemma {:induction false} FirstDifference(a: string, b: string) returns (i: nat)
    requires |a| == |b| && Less(a, b)
    ensures i < |a| && a[..i] == b[..i] && a[i] < b[i]
  {
    if a[0] < b[0] {
      i := 0;
    } else {
      var j := FirstDifference(a[1..], b[1..]);
      i := j + 1;
      assert a[..i] == [a[0]] + a[1..][..j] && b[..i] == [b[0]] + b[1..][..j];
    }
  }

  lemma {:induction false} DifferenceDecides(a: string, b: string, i: nat)
    requires i < |a| && i < |b| && a[i] < b[i] && (forall k :: 0 <= k < i ==> a[k] == b[k])
    ensures Less(a, b)
  {
    if i == 0 {
    } else {
      DifferenceDecides(a[1..], b[1..], i - 1);
    }
  }

  /** Inserting the hyphens at the same places keeps the order. */
  lemma DashedKeepsOrder(a: string, b: string)
    requires |a| == |b| == 32 && Less(a, b)
    ensures Less(Dashed(a), Dashed(b))
  {
    var i := FirstDifference(a, b);
    DashedSame(a, b, i);
    DashedAt(a, Shifted(i));
    DashedAt(b, Shifted(i));
    DifferenceDecides(Dashed(a), Dashed(b), Shifted(i));
  }

  lemma {:induction false} LessBytesExtend(a: seq<byte>, b: seq<byte>, x: seq<byte>, y: seq<byte>)
    requires |a| == |b| && BytesLess(a, b)
    ensures BytesLess(a + x, b + y)
  {
    assert (a + x)[1..] == a[1..] + x && (b + y)[1..] == b[1..] + y;
    if a[0] != b[0] {
    } else {
      LessBytesExtend(a[1..], b[1..], x, y);
    }
  }

  /** Value of bytes read most significant first. */
  function Value(b: seq<byte>): (r: nat) { if b == [] then 0 else Value(b[..|b| - 1]) * 256 + b[|b| - 1] }

  function Power(n: nat): (r: nat) { if n == 0 then 1 else 256 * Power(n - 1) }

  lemma {:induction false} ValueBelow(b: seq<byte>)
    ensures Value(b) < Power(|b|)
  {
    if b == [] {
    } else {
      ValueBelow(b[..|b| - 1]);
    }
  }

  lemma {:induction false} ValueInjective(a: seq<byte>, b: seq<byte>)
    requires |a| == |b| && Value(a) == Value(b)
    ensures a == b
  {
    if a == [] {
    } else {
      ValueInjective(a[..|a| - 1], b[..|b| - 1]);
      assert a == a[..|a| - 1] + [a[|a| - 1]] && b == b[..|b| - 1] + [b[|b| - 1]];
    }
  }

  lemma {:induction false} LastDecides(p: seq<byte>, x: seq<byte>, y: seq<byte>)
    requires |x| == |y| == 1 && x[0] < y[0]
    ensures BytesLess(p + x, p + y)
  {
    if p == [] {
      assert p + x == x && p + y == y;
    } else {
      assert (p + x)[1..] == p[1..] + x && (p + y)[1..] == p[1..] + y;
      LastDecides(p[1..], x, y);
    }
  }

  lemma {:induction false} ValueOrder(a: seq<byte>, b: seq<byte>)
    requires |a| == |b| && Value(a) < Value(b)
    ensures BytesLess(a, b)
  {
    if a == [] {
    } else {
      var p, q := a[..|a| - 1], b[..|b| - 1];
      var x, y := a[|a| - 1..], b[|b| - 1..];
      assert a == p + x && b == q + y;
      if Value(p) < Value(q) {
        ValueOrder(p, q);
        LessBytesExtend(p, q, x, y);
      } else {
        ValueInjective(p, q);
        LastDecides(p, x, y);
      }
    }
  }

  lemma Monotone(a: int, b: int, d: int)
    requires a >= b && d > 0
    ensures a * d >= b * d
  {
    assert (a - b) * d >= 0;
  }

  lemma CancelLess(a: int, b: int, d: int)
    requires d > 0 && a * d < b * d
    ensures a < b
  {
    if a >= b {
      Monotone(a, b, d);
    }
  }

  lemma QuotientIs(n: nat, d: nat, q: nat, r: nat)
    requires d > 0 && n == q * d + r && r < d
    ensures n / d == q
  {
    assert n == n / d * d + n % d;
    assert n / d * d < (q + 1) * d && q * d < (n / d + 1) * d;
    CancelLess(n / d, q + 1, d);
    CancelLess(q, n / d + 1, d);
  }

  lemma SixDigits(n: nat)
    requires n < 0x1_0000_0000_0000
    ensures n == ((((n / 0x100_0000_0000 % 256 * 256 + n / 0x1_0000_0000 % 256) * 256 + n / 0x100_0000 % 256) * 256
                   + n / 0x1_0000 % 256) * 256 + n / 0x100 % 256) * 256 + n % 256
  {
    var q1 := n / 256;
    var q2 := q1 / 256;
    var q3 := q2 / 256;
    var q4 := q3 / 256;
    var q5 := q4 / 256;
    QuotientIs(n, 0x1_0000, q2, n - q2 * 0x1_0000);
    QuotientIs(n, 0x100_0000, q3, n - q3 * 0x100_0000);
    QuotientIs(n, 0x1_0000_0000, q4, n - q4 * 0x1_0000_0000);
    QuotientIs(n, 0x100_0000_0000, q5, n - q5 * 0x100_0000_0000);
  }

  lemma ValueAppend(b: seq<byte>, x: byte)
    ensures Value(b + [x]) == Value(b) * 256 + x
  {
    assert (b + [x])[..|b|] == b;
  }

  lemma ValueOfSix(a: byte, b: byte, c: byte, d: byte, e: byte, f: byte)
    ensures Value([a, b, c, d, e, f]) == ((((a * 256 + b) * 256 + c) * 256 + d) * 256 + e) * 256 + f
  {
    ValueAppend([], a);
    ValueAppend([a], b);
    ValueAppend([a, b], c);
    ValueAppend([a, b, c], d);
    ValueAppend([a, b, c, d], e);
    ValueAppend([a, b, c, d, e], f);
    assert [] + [a] == [a] && [a] + [b] == [a, b] && [a, b] + [c] == [a, b, c] && [a, b, c] + [d] == [a, b, c, d];
    assert [a, b, c, d] + [e] == [a, b, c, d, e] && [a, b, c, d, e] + [f] == [a, b, c, d, e, f];
  }

  /** The six bytes hold the time, up to the year 10889. */
  lemma TimeBytesValue(now: nat)
    requires now < 0x1_0000_0000_0000
    ensures Value(TimeBytes(now)) == now
  {
    var t := TimeBytes(now);
    ValueOfSix(t[0], t[1], t[2], t[3], t[4], t[5]);
    SixDigits(now);
  }

  /** Ids made in a later millisecond sort later, whatever their random bits. */
  lemma LaterSortsLater(now: nat, later: nat, rand: seq<byte>, rand': seq<byte>)
    requires now < later < 0x1_0000_0000_0000 && |rand| == 10 && |rand'| == 10
    ensures Less(UuidV7(now, rand), UuidV7(later, rand'))
  {
    TimeBytesValue(now);
    TimeBytesValue(later);
    ValueOrder(TimeBytes(now), TimeBytes(later));
    var x, y := Bytes(now, rand)[6..], Bytes(later, rand')[6..];
    LessBytesExtend(TimeBytes(now), TimeBytes(later), x, y);
    assert Bytes(now, rand) == TimeBytes(now) + x && Bytes(later, rand') == TimeBytes(later) + y;
    HexKeepsOrder(Bytes(now, rand), Bytes(later, rand'));
    DashedKeepsOrder(Hex(Bytes(now, rand)), Hex(Bytes(later, rand')));
  }

  lemma {:induction false} HexAt(b: seq<byte>, i: nat)
    requires i < |b|
    ensures Hex(b)[2 * i] == HexDigit(b[i] / 16) && Hex(b)[2 * i + 1] == HexDigit(b[i] % 16)
  {
    if i == 0 {
    } else {
      HexAt(b[1..], i - 1);
    }
  }

  /** Version 7 and the RFC variant stand where section 5.7 of RFC 9562 puts them. */
  lemma VersionAndVariant(now: nat, rand: seq<byte>)
    requires |rand| == 10
    ensures UuidV7(now, rand)[14] == '7' && UuidV7(now, rand)[19] in {'8', '9', 'a', 'b'}
  {
    var b := Bytes(now, rand);
    HexAt(b, 6);
    HexAt(b, 8);
    assert b[6] / 16 == 7 && 8 <= b[8] / 16 < 12;
  }
}
