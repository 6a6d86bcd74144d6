/** Shared vocabulary: optional values, results, the byte-wise order SQLite's TEXT comparison uses
    and JavaScript's notion of a blank string. */
module Prelude {
  datatype Option<+T> = None | Some(value: T)

  datatype Result<+T, +E> = Ok(value: T) | Err(error: E) {
    predicate IsFailure() { Err? }

    function PropagateFailure<U>(): (r: Result<U, E>)
      requires Err?
    {
      Err(error)
    }

    function Extract(): (r: T)
      requires Ok?
    {
      value
    }
  }

  type byte = b: int | 0 <= b < 256

  function Min(a: int, b: int): (r: int) { if a <= b then a else b }

  function Max(a: int, b: int): (r: int) { if a >= b then a else b }

  /** Strict lexicographic order by code point. */
  predicate Less(a: string, b: string) {
    if b == "" then false
    else if a == "" then true
    else a[0] < b[0] || (a[0] == b[0] && Less(a[1..], b[1..]))
  }

  lemma {:induction false} LessIrreflexive(a: string)
    ensures !Less(a, a)
  {
    if a == "" {
    } else {
      LessIrreflexive(a[1..]);
    }
  }

  lemma {:induction false} LessTransitive(a: string, b: string, c: string)
    requires Less(a, b) && Less(b, c)
    ensures Less(a, c)
  {
    if a == "" || a[0] != b[0] || b[0] != c[0] {
    } else {
      LessTransitive(a[1..], b[1..], c[1..]);
    }
  }

  lemma {:induction false} LessTotal(a: string, b: string)
    ensures Less(a, b) || a == b || Less(b, a)
  {
    if a == "" || b == "" || a[0] != b[0] {
    } else {
      LessTotal(a[1..], b[1..]);
      assert a == [a[0]] + a[1..] && b == [b[0]] + b[1..];
    }
  }

  lemma LessAsymmetric(a: string, b: string)
    requires Less(a, b)
    ensures !Less(b, a) && a != b
  {
    LessIrreflexive(a);
    if Less(b, a) {
      LessTransitive(a, b, a);
    }
  }

  lemma {:induction false} LessSuffix(a: string, b: string, x: string, y: string)
    requires |a| == |b| && Less(a, b)
    ensures Less(a + x, b + y)
  {
    assert (a + x)[1..] == a[1..] + x && (b + y)[1..] == b[1..] + y;
    if a[0] != b[0] {
    } else {
      LessSuffix(a[1..], b[1..], x, y);
    }
  }

  lemma {:induction false} LessPrefix(a: string, x: string, y: string)
    requires Less(x, y)
    ensures Less(a + x, a + y)
  {
    if a == "" {
      assert a + x == x && a + y == y;
    } else {
      assert (a + x)[1..] == a[1..] + x && (a + y)[1..] == a[1..] + y;
      LessPrefix(a[1..], x, y);
    }
  }

  /** `a` is a proper prefix, or smaller at the first position where they differ. */
  predicate LessAt(a: string, b: string, k: nat) {
    k <= |a| && k <= |b| && a[..k] == b[..k] && (if k == |a| then k < |b| else k < |b| && a[k] < b[k])
  }

  lemma {:induction false} LessIff(a: string, b: string)
    ensures Less(a, b) <==> exists k :: 0 <= k <= |a| && LessAt(a, b, k)
  {
    if a == "" || b == "" || a[0] != b[0] {
      if Less(a, b) {
        assert LessAt(a, b, 0);
      }
    } else {
      LessIff(a[1..], b[1..]);
      if Less(a[1..], b[1..]) {
        var k :| 0 <= k <= |a[1..]| && LessAt(a[1..], b[1..], k);
        assert a[..k + 1] == [a[0]] + a[1..][..k] && b[..k + 1] == [b[0]] + b[1..][..k];
        assert LessAt(a, b, k + 1);
      }
      if k :| 0 <= k <= |a| && LessAt(a, b, k) {
        assert a[1..][..k - 1] == a[..k][1..] && b[1..][..k - 1] == b[..k][1..];
        assert LessAt(a[1..], b[1..], k - 1);
      }
    }
  }

  /** Code points of the white space `String.prototype.trim` removes. */
  predicate SpaceCode(n: int) {
    9 <= n <= 13 || n == 32 || n == 0xA0 || n == 0x1680 || 0x2000 <= n <= 0x200A || n == 0x2028 || n == 0x2029
    || n == 0x202F || n == 0x205F || n == 0x3000 || n == 0xFEFF
  }

  function DropFront<T>(s: seq<T>, drop: T -> bool): (t: seq<T>)
    ensures |t| <= |s| && (t != [] ==> !drop(t[0]))
  {
    if s != [] && drop(s[0]) then DropFront(s[1..], drop) else s
  }

  function DropBack<T>(s: seq<T>, drop: T -> bool): (t: seq<T>)
    ensures t <= s && (t != [] ==> !drop(t[|t| - 1]))
  {
    if s != [] && drop(s[|s| - 1]) then DropBack(s[..|s| - 1], drop) else s
  }

  const SPACE_CODES: set<int> := {
    0x09, 0x0A, 0x0B, 0x0C, 0x0D, 0x20, 0xA0, 0x1680, 0x2000, 0x2001, 0x2002, 0x2003, 0x2004, 0x2005, 0x2006, 0x2007,
    0x2008, 0x2009, 0x200A, 0x2028, 0x2029, 0x202F, 0x205F, 0x3000, 0xFEFF }

  /** The WhiteSpace and LineTerminator productions of ECMA-262, sections 12.2 and 12.3. */
  lemma SpaceCodeIff(n: int)
    ensures SpaceCode(n) <==> n in SPACE_CODES
  {
  }

  predicate IsSpace(c: char) { SpaceCode(c as int) }

  predicate AllDropped<T>(s: seq<T>, drop: T -> bool) { forall k :: 0 <= k < |s| ==> drop(s[k]) }

  lemma {:induction false} DropFrontCuts<T>(s: seq<T>, drop: T -> bool) returns (i: nat)
    ensures i <= |s| && DropFront(s, drop) == s[i..] && AllDropped(s[..i], drop)
  {
    if s == [] || !drop(s[0]) {
      i := 0;
    } else {
      var k := DropFrontCuts(s[1..], drop);
      i := k + 1;
      assert s[..i] == [s[0]] + s[1..][..k];
    }
  }

  lemma {:induction false} DropBackCuts<T>(s: seq<T>, drop: T -> bool) returns (j: nat)
    ensures j <= |s| && DropBack(s, drop) == s[..j] && AllDropped(s[j..], drop)
  {
    if s == [] || !drop(s[|s| - 1]) {
      j := |s|;
    } else {
      j := DropBackCuts(s[..|s| - 1], drop);
      assert s[j..] == s[..|s| - 1][j..] + [s[|s| - 1]];
    }
  }

  function Trim(s: string): (t: string)
    ensures |t| <= |s|
  {
    DropBack(DropFront(s, IsSpace), IsSpace)
  }

  /** `t` is the part of `s` from one position to another. */
  predicate Cut(s: string, i: nat, j: nat, t: string) { i <= j <= |s| && s[i..j] == t }

  /** What is removed is white space, and what is left neither starts nor ends with any. */
  lemma TrimCuts(s: string) returns (i: nat, j: nat)
    ensures Cut(s, i, j, Trim(s)) && AllDropped(s[..i], IsSpace) && AllDropped(s[j..], IsSpace)
    ensures Trim(s) != "" ==> !IsSpace(Trim(s)[0]) && !IsSpace(Trim(s)[|Trim(s)| - 1])
  {
    i := DropFrontCuts(s, IsSpace);
    var k := DropBackCuts(s[i..], IsSpace);
    j := i + k;
    assert s[j..] == s[i..][k..] && s[i..j] == s[i..][..k];
    if Trim(s) != "" {
      assert Trim(s)[0] == s[i..][0];
    }
  }

  predicate Blank(s: string) { Trim(s) == "" }

  /** Text of nothing but white space. */
  predicate Vacant(s: string) { forall c :: c in s ==> c as int in SPACE_CODES }

  lemma BlankIff(s: string)
    ensures Blank(s) <==> Vacant(s)
  {
    var i, j := TrimCuts(s);
    forall c ensures IsSpace(c) <==> c as int in SPACE_CODES {
      SpaceCodeIff(c as int);
    }
    if Blank(s) {
      assert s == s[..i] + s[j..];
    } else {
      assert s[i] in s && s[i] == Trim(s)[0];
    }
  }

  /** A JavaScript optional string used as a condition: absent and empty are both false. */
  predicate Truthy(s: Option<string>) { s.Some? && s.value != "" }

  const SMALL := "abcdefghijklmnopqrstuvwxyz"
  const CAPITAL := "ABCDEFGHIJKLMNOPQRSTUVWXYZ"

  /** The small letter of a capital one. */
  predicate LetterPair(c: char, d: char) { exists n :: 0 <= n < 26 && CAPITAL[n] == c && SMALL[n] == d }

  lemma LetterPairIff(c: char, d: char)
    ensures LetterPair(c, d) <==> 'A' <= c <= 'Z' && d as int - 'a' as int == c as int - 'A' as int
    ensures (exists x :: LetterPair(c, x)) <==> 'A' <= c <= 'Z'
  {
    assert forall n :: 0 <= n < 26 ==> CAPITAL[n] as int == 'A' as int + n && SMALL[n] as int == 'a' as int + n;
    if 'A' <= c <= 'Z' {
      var n := c as int - 'A' as int;
      assert CAPITAL[n] == c && LetterPair(c, SMALL[n]);
    }
  }

  function Decimal(n: nat): (s: string)
    ensures s != "" && forall k :: 0 <= k < |s| ==> '0' <= s[k] <= '9'
  {
    var d := "0123456789"[n % 10];
    if n < 10 then [d] else Decimal(n / 10) + [d]
  }

  /** The number that decimal digits denote. */
  function ValueOf(s: string): (n: int) {
    if s == "" then 0 else 10 * ValueOf(s[..|s| - 1]) + (s[|s| - 1] as int - '0' as int)
  }

  /** A number is printed without leading zeros, and the digits denote it. */
  lemma {:induction false} DecimalDenotes(n: nat)
    ensures ValueOf(Decimal(n)) == n && (Decimal(n)[0] == '0' ==> n == 0)
  {
    var d := "0123456789"[n % 10];
    if n < 10 {
      assert Decimal(n)[..0] == "";
    } else {
      DecimalDenotes(n / 10);
      assert Decimal(n)[..|Decimal(n)| - 1] == Decimal(n / 10);
    }
    assert d as int - '0' as int == n % 10;
  }
}
