/** `normalizeResourceName`: which names of a resource reach the same claim object. */
module ResourceName {
  import opened Prelude

  const MAX_LENGTH := 256

  datatype Error = Empty | TooLong

  /** Backslashes fold to slashes and ASCII letters to lower case. */
  function FoldChar(c: char): (r: char) {
    if c == '\\' then '/' else if 'A' <= c <= 'Z' then c - 'A' + 'a' else c
  }

  function Fold(s: string): (t: string)
    ensures |t| == |s| && forall i :: 0 <= i < |s| ==> t[i] == FoldChar(s[i])
  {
    seq(|s|, i requires 0 <= i < |s| => FoldChar(s[i]))
  }

  /** One leading `./` is dropped, no more. */
  function Stripped(s: string): (t: string) { if "./" <= s then s[2..] else s }

  function Normalize(resource: string): (r: Result<string, Error>) {
    var n := Stripped(Fold(resource));
    if n == "" then Err(Empty) else if |n| > MAX_LENGTH then Err(TooLong) else Ok(n)
  }

  /** Slashes of both kinds become `/`, capital letters small ones, anything else stays. */
  predicate Folded(c: char, d: char) {
    if c in "/\\" then d == '/' else LetterPair(c, d) || (c == d && forall x :: !LetterPair(c, x))
  }

  lemma FoldCharIs(c: char)
    ensures Folded(c, FoldChar(c))
  {
    LetterPairIff(c, FoldChar(c));
    forall x {
      LetterPairIff(c, x);
    }
  }

  /** Whether the name starts with a dot and a slash of either kind. */
  predicate DotSlash(s: string) { |s| >= 2 && s[0] == '.' && s[1] in "/\\" }

  /** The normal form, character by character: the name without one leading dot and slash, of 1 to 256
      characters. */
  lemma NormalizeIs(resource: string)
    ensures var start := if DotSlash(resource) then 2 else 0;
            && (|resource| == start ==> Normalize(resource) == Err(Empty))
            && (|resource| - start > 256 ==> Normalize(resource) == Err(TooLong))
            && (0 < |resource| - start <= 256 ==>
                  Normalize(resource).Ok? && |Normalize(resource).value| == |resource| - start &&
                  forall k :: 0 <= k < |resource| - start ==> Folded(resource[start + k], Normalize(resource).value[k]))
  {
    var f := Fold(resource);
    if |resource| >= 2 {
      assert "./" <= f <==> f[0] == '.' && f[1] == '/';
      FoldCharIs(resource[0]);
      FoldCharIs(resource[1]);
      LetterPairIff(resource[0], '.');
      LetterPairIff(resource[1], '/');
    }
    forall k | 0 <= k < |resource| ensures Folded(resource[k], f[k]) {
      FoldCharIs(resource[k]);
    }
  }

  /** Names that differ only in letter case and in the direction of their slashes. */
  predicate Aliases(a: string, b: string)
  {
    |a| == |b| && forall i :: 0 <= i < |a| ==> FoldChar(a[i]) == FoldChar(b[i])
  }

  /** Aliases reach one object, with or without a leading `./`. */
  lemma AliasesShareObject(a: string, b: string)
    requires Aliases(a, b)
    ensures Normalize(a) == Normalize(b)
    ensures !("./" <= Fold(a)) ==> Normalize("./" + a) == Normalize(b)
  {
    assert Fold(a) == Fold(b);
    assert Fold("./" + a) == "./" + Fold(a);
    assert ("./" + Fold(a))[2..] == Fold(a);
  }

  /** A normalized name is its own normal form exactly when it has no further leading `./`. */
  lemma NormalIff(s: string)
    requires Normalize(s).Ok?
    ensures var n := Normalize(s).value; Normalize(n) == Ok(n) <==> !("./" <= n)
  {
    var n := Normalize(s).value;
    forall i | 0 <= i < |n| ensures FoldChar(n[i]) == n[i] {
      assert exists j :: 0 <= j < |s| && n[i] == FoldChar(s[j]) by {
        var j := if "./" <= Fold(s) then i + 2 else i;
        assert n[i] == FoldChar(s[j]);
      }
    }
    assert Fold(n) == n;
    if "./" <= n {
      assert |Stripped(n)| < |n|;
    }
  }

  /** A doubled prefix names another object than the bare name does. */
  lemma DoubledPrefixSplits(name: string)
    requires name != "" && |name| <= MAX_LENGTH - 2 && !("./" <= Fold(name))
    ensures Normalize("././" + name) == Ok("./" + Fold(name)) && Normalize(name) == Ok(Fold(name))
  {
    assert Fold("././" + name) == "././" + Fold(name);
    assert ("././" + Fold(name))[2..] == "./" + Fold(name);
  }
}
