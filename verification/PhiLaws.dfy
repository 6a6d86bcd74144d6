/** The PHI screen: what each of its patterns matches, as the parts of the text around and inside the match. */
module PhiLaws {
  import opened Prelude
  import opened Utf16
  import opened Validation
  import opened ValidationLaws

  predicate EndsInWord(t: Text) { t != [] && WordUnit(t[|t| - 1]) }

  predicate StartsWithWord(t: Text) { t != [] && WordUnit(t[0]) }

  predicate AllDigits(t: Text) { forall k :: 0 <= k < |t| ==> DigitUnit(t[k]) }

  /** The word, in capital or small letters. */
  predicate Spelled(t: Text, word: Text) { |t| == |word| && forall k :: 0 <= k < |t| ==> LowerUnit(t[k]) == word[k] }

  // ---- Social security numbers --------------------------------------------

  /** Three digits, two and four, with dashes between them. */
  predicate Ssn(n: Text) {
    |n| == 11 && n[3] == 0x2D && n[6] == 0x2D && forall k :: 0 <= k < 11 && k != 3 && k != 6 ==> DigitUnit(n[k])
  }

  lemma SsnFound(s: Text, i: nat)
    requires SsnAt(s, i)
    ensures Ssn(s[i..i + 11]) && !EndsInWord(s[..i]) && !StartsWithWord(s[i + 11..])
  {
    assert WordUnit(s[i]) && WordUnit(s[i + 10]);
    var n := s[i..i + 11];
    assert forall k :: 0 <= k < 11 ==> n[k] == s[i + k];
  }

  lemma SsnThere(pre: Text, n: Text, post: Text)
    requires Ssn(n) && !EndsInWord(pre) && !StartsWithWord(post)
    ensures SsnAt(pre + n + post, |pre|)
  {
    var s, i := pre + n + post, |pre|;
    assert forall k :: i <= k < i + 11 ==> s[k] == n[k - i];
    assert i > 0 ==> s[i - 1] == pre[i - 1];
    assert i + 11 < |s| ==> s[i + 11] == post[0];
    assert WordUnit(s[i]) && WordUnit(s[i + 10]);
  }

  // ---- Labels -------------------------------------------------------------

  /** The label, a colon or a number sign or neither, and white space or none. */
  predicate Labelled(t: Text, word: Text) {
    |t| >= |word| && Spelled(t[..|word|], word) && (White(t[|word|..]) ||
      (|t| > |word| && t[|word|] in {0x3A, 0x23} && White(t[|word| + 1..])))
  }

  lemma LabelFound(s: Text, i: nat, word: Text, j: nat)
    requires j <= |s| && LabelAt(s, i, word, j) && word != [] && WordUnit(s[i])
    ensures i <= j && Labelled(s[i..j], word) && !EndsInWord(s[..i])
  {
    var t, n := s[i..j], |word|;
    assert forall k :: 0 <= k < n ==> t[k] == s[i + k];
    if Blanks(s, i + n, j) {
      StretchesAre(s, i + n, j);
      assert t[n..] == s[i + n..j];
    } else {
      StretchesAre(s, i + n + 1, j);
      assert t[n + 1..] == s[i + n + 1..j];
    }
  }

  lemma LabelTail(s: Text, from: nat, j: nat, t: Text)
    requires from <= j <= |s| && s[from..j] == t
    ensures Blanks(s, from, j) <==> White(t)
  {
    StretchesAre(s, from, j);
  }

  lemma LabelThere(pre: Text, t: Text, word: Text, post: Text)
    requires Labelled(t, word) && word != [] && WordUnit(t[0]) && !EndsInWord(pre)
    ensures LabelAt(pre + t + post, |pre|, word, |pre| + |t|)
  {
    var s, i, n := pre + t + post, |pre|, |word|;
    var j := i + |t|;
    assert forall k :: i <= k < j ==> s[k] == t[k - i];
    assert i > 0 ==> s[i - 1] == pre[i - 1];
    forall k | 0 <= k < n ensures LowerUnit(s[i + k]) == word[k] {
      assert t[..n][k] == t[k];
    }
    LabelTail(s, i + n, j, t[n..]);
    if |t| > n {
      LabelTail(s, i + n + 1, j, t[n + 1..]);
    }
  }

  // ---- Numbers and dates --------------------------------------------------

  /** A labelled number of four digits or more. */
  ghost predicate Mrn(core: Text) {
    exists t, n :: core == t + n && Labelled(t, Ascii("mrn")) && |n| >= 4 && AllDigits(n)
  }

  lemma DigitsPart(s: Text, i: nat, j: nat)
    requires i <= j <= |s|
    ensures Digits(s, i, j) <==> AllDigits(s[i..j])
  {
    assert forall k :: i <= k < j ==> s[k] == s[i..j][k - i];
  }

  lemma FirstOfWord(s: Text, i: nat, word: Text)
    requires WordAt(s, i, word) && word != [] && 97 <= word[0] <= 122
    ensures i < |s| && WordUnit(s[i])
  {
    assert LowerUnit(s[i + 0]) == word[0];
  }

  lemma MrnFound(s: Text, i: nat, j: nat, k: nat)
    requires MrnAt(s, i, j, k)
    ensures i <= k && Mrn(s[i..k]) && !EndsInWord(s[..i]) && !StartsWithWord(s[k..])
  {
    assert Ascii("mrn")[0] == 'm' as int;
    FirstOfWord(s, i, Ascii("mrn"));
    LabelFound(s, i, Ascii("mrn"), j);
    DigitsPart(s, j, k);
    assert s[i..k] == s[i..j] + s[j..k];
    assert WordUnit(s[k - 1]);
  }

  lemma MrnThere(pre: Text, t: Text, n: Text, post: Text)
    requires Labelled(t, Ascii("mrn")) && |n| >= 4 && AllDigits(n) && !EndsInWord(pre) && !StartsWithWord(post)
    ensures MrnAt(pre + (t + n) + post, |pre|, |pre| + |t|, |pre| + |t| + |n|)
  {
    var s, j := pre + (t + n) + post, |pre| + |t|;
    var k := j + |n|;
    assert t[..3][0] == t[0] && Ascii("mrn")[0] == 'm' as int;
    assert LowerUnit(t[0]) == 'm' as int;
    assert s == pre + t + (n + post);
    LabelThere(pre, t, Ascii("mrn"), n + post);
    assert s[j..k] == n;
    DigitsPart(s, j, k);
    assert s[k - 1] == n[|n| - 1] && WordUnit(s[k - 1]);
    assert k < |s| ==> s[k] == post[0];
  }

  const DATE_MARKS: set<int> := {0x2F, 0x2D}

  /** A day, a month and a year of one or two, one or two and two to four digits, between slashes or dashes. */
  predicate Date(d: Text, x: unit, m: Text, y: unit, year: Text) {
    && 1 <= |d| <= 2 && 1 <= |m| <= 2 && 2 <= |year| <= 4 && AllDigits(d) && AllDigits(m) && AllDigits(year)
    && x in DATE_MARKS && y in DATE_MARKS
  }

  predicate DobParts(core: Text, t: Text, d: Text, x: unit, m: Text, y: unit, year: Text) {
    core == t + (d + [x] + m + [y] + year) && Labelled(t, Ascii("dob")) && Date(d, x, m, y, year)
  }

  ghost predicate Dob(core: Text) {
    exists t, d, x: unit, m, y: unit, year :: DobParts(core, t, d, x, m, y, year)
  }

  lemma Joined(s: Text, j: nat, k: nat, l: nat, m: nat)
    requires j < k < l <= m <= |s|
    ensures s[j..m] == s[j..k - 1] + [s[k - 1]] + s[k..l - 1] + [s[l - 1]] + s[l..m]
  {
    assert s[j..k] == s[j..k - 1] + [s[k - 1]];
    assert s[j..l - 1] == s[j..k] + s[k..l - 1];
    assert s[j..l] == s[j..l - 1] + [s[l - 1]];
    assert s[j..m] == s[j..l] + s[l..m];
  }

  lemma DobFound(s: Text, i: nat, j: nat, k: nat, l: nat, m: nat)
    requires DobAt(s, i, j, k, l, m)
    ensures i <= m && Dob(s[i..m]) && !EndsInWord(s[..i]) && !StartsWithWord(s[m..])
  {
    assert Ascii("dob")[0] == 'd' as int;
    FirstOfWord(s, i, Ascii("dob"));
    LabelFound(s, i, Ascii("dob"), j);
    DigitsPart(s, j, k - 1);
    DigitsPart(s, k, l - 1);
    DigitsPart(s, l, m);
    Joined(s, j, k, l, m);
    assert s[i..m] == s[i..j] + s[j..m];
    assert DobParts(s[i..m], s[i..j], s[j..k - 1], s[k - 1], s[k..l - 1], s[l - 1], s[l..m]);
    assert WordUnit(s[m - 1]);
  }

  lemma DateParts(s: Text, j: nat, d: Text, x: unit, m: Text, y: unit, year: Text, post: Text)
    requires j <= |s| && s[j..] == d + [x] + m + [y] + year + post
    ensures var k, l, e := j + |d| + 1, j + |d| + |m| + 2, j + |d| + |m| + |year| + 2;
            && e <= |s| && s[j..k - 1] == d && s[k - 1] == x && s[k..l - 1] == m && s[l - 1] == y && s[l..e] == year
  {
    var r := s[j..];
    var k, l, e := j + |d| + 1, j + |d| + |m| + 2, j + |d| + |m| + |year| + 2;
    assert s[j..k - 1] == r[..|d|] && s[k..l - 1] == r[|d| + 1..|d| + 1 + |m|] &&
           s[l..e] == r[|d| + |m| + 2..|d| + |m| + 2 + |year|];
    assert s[k - 1] == r[|d|] && s[l - 1] == r[|d| + |m| + 1];
  }

  lemma DateThere(s: Text, j: nat, d: Text, x: unit, m: Text, y: unit, year: Text, post: Text)
    requires j <= |s| && s[j..] == d + [x] + m + [y] + year + post && Date(d, x, m, y, year) && !StartsWithWord(post)
    ensures var k, l, e := j + |d| + 1, j + |d| + |m| + 2, j + |d| + |m| + |year| + 2;
            && e <= |s| && Digits(s, j, k - 1) && UnitAt(s, k - 1, {0x2F, 0x2D}) && Digits(s, k, l - 1)
            && UnitAt(s, l - 1, {0x2F, 0x2D}) && Digits(s, l, e) && Boundary(s, e)
  {
    var k, l, e := j + |d| + 1, j + |d| + |m| + 2, j + |d| + |m| + |year| + 2;
    DateParts(s, j, d, x, m, y, year, post);
    DigitsPart(s, j, k - 1);
    DigitsPart(s, k, l - 1);
    DigitsPart(s, l, e);
    assert s[e - 1] == s[l..e][|year| - 1] && WordUnit(s[e - 1]);
    assert e < |s| ==> s[e] == s[j..][e - j] == post[0];
  }

  lemma DobThere(pre: Text, t: Text, d: Text, x: unit, m: Text, y: unit, year: Text, post: Text)
    requires Labelled(t, Ascii("dob")) && Date(d, x, m, y, year) && !EndsInWord(pre) && !StartsWithWord(post)
    ensures var date := d + [x] + m + [y] + year;
            var j := |pre| + |t|;
            DobAt(pre + (t + date) + post, |pre|, j, j + |d| + 1, j + |d| + |m| + 2, j + |date|)
  {
    var date := d + [x] + m + [y] + year;
    var s, j := pre + (t + date) + post, |pre| + |t|;
    var k, l, e := j + |d| + 1, j + |d| + |m| + 2, j + |date|;
    assert t[..3][0] == t[0] && Ascii("dob")[0] == 'd' as int;
    assert LowerUnit(t[0]) == 'd' as int;
    assert s == pre + t + (date + post);
    LabelThere(pre, t, Ascii("dob"), date + post);
    assert s[j..] == date + post;
    DateThere(s, j, d, x, m, y, year, post);
  }

  // ---- Patients -----------------------------------------------------------

  predicate PatientParts(core: Text, p: Text, gap: Text, noun: Text) {
    core == p + gap + noun && Spelled(p, Ascii("patient")) && gap != [] && White(gap) &&
    (Spelled(noun, Ascii("name")) || Spelled(noun, Ascii("id")))
  }

  /** The word `patient`, white space and `name` or `id`. */
  ghost predicate Patient(core: Text) { exists p, gap, noun :: PatientParts(core, p, gap, noun) }

  lemma WordPart(s: Text, i: nat, word: Text)
    requires i + |word| <= |s|
    ensures WordAt(s, i, word) <==> Spelled(s[i..i + |word|], word)
  {
    var t := s[i..i + |word|];
    assert forall k :: 0 <= k < |word| ==> t[k] == s[i + k];
  }

  /** Spelled words begin and end with word characters. */
  lemma SpelledIsWord(t: Text, word: Text, k: nat)
    requires Spelled(t, word) && k < |word| && 97 <= word[k] <= 122
    ensures WordUnit(t[k])
  {
  }

  lemma NounFound(s: Text, j: nat, k: nat, word: Text)
    requires word in {Ascii("name"), Ascii("id")} && k == j + |word| && WordAt(s, j, word)
    ensures k <= |s| && Spelled(s[j..k], word) && k > j && WordUnit(s[k - 1])
  {
    WordPart(s, j, word);
    assert Ascii("name")[3] == 'e' as int && Ascii("id")[1] == 'd' as int;
    SpelledIsWord(s[j..k], word, |word| - 1);
  }

  lemma PatientFound(s: Text, i: nat, j: nat, k: nat)
    requires PatientAt(s, i, j, k)
    ensures i <= k && Patient(s[i..k]) && !EndsInWord(s[..i]) && !StartsWithWord(s[k..])
  {
    var word := if k == j + 4 then Ascii("name") else Ascii("id");
    WordPart(s, i, Ascii("patient"));
    NounFound(s, j, k, word);
    StretchesAre(s, i + 7, j);
    assert Ascii("patient")[0] == 'p' as int;
    FirstOfWord(s, i, Ascii("patient"));
    assert s[i..k] == s[i..i + 7] + s[i + 7..j] + s[j..k];
    assert PatientParts(s[i..k], s[i..i + 7], s[i + 7..j], s[j..k]);
  }

  lemma ThreeParts(pre: Text, a: Text, b: Text, c: Text, post: Text)
    ensures var s, i := pre + (a + b + c) + post, |pre|;
            var j := i + |a|;
            var k := j + |b|;
            s[i..j] == a && s[j..k] == b && s[k..k + |c|] == c && s[k + |c|..] == post && s[..i] == pre
  {
    var s, i := pre + (a + b + c) + post, |pre|;
    var core := a + b + c;
    var t := core + post;
    assert s == pre + t && s[i..] == t && t[..|core|] == core && t[|core|..] == post;
    assert core[..|a|] == a && core[|a|..|a| + |b|] == b && core[|a| + |b|..] == c;
    assert forall n :: i <= n < i + |core| ==> s[n] == core[n - i];
  }

  lemma PatientThere(pre: Text, p: Text, gap: Text, noun: Text, word: Text, post: Text)
    requires Spelled(p, Ascii("patient")) && gap != [] && White(gap) && word in {Ascii("name"), Ascii("id")} &&
             Spelled(noun, word)
    requires !EndsInWord(pre) && !StartsWithWord(post)
    ensures PatientAt(pre + (p + gap + noun) + post, |pre|, |pre| + 7 + |gap|, |pre| + 7 + |gap| + |noun|)
  {
    var s, i := pre + (p + gap + noun) + post, |pre|;
    var j := i + 7 + |gap|;
    var k := j + |noun|;
    ThreeParts(pre, p, gap, noun, post);
    WordPart(s, i, Ascii("patient"));
    WordPart(s, j, word);
    StretchesAre(s, i + 7, j);
    assert Ascii("patient")[0] == 'p' as int && Ascii("name")[3] == 'e' as int && Ascii("id")[1] == 'd' as int;
    SpelledIsWord(p, Ascii("patient"), 0);
    SpelledIsWord(noun, word, |word| - 1);
    assert s[i] == p[0] && s[k - 1] == noun[|noun| - 1] && (i > 0 ==> s[i - 1] == pre[i - 1]) &&
           (k < |s| ==> s[k] == post[0]);
  }

  // ---- The screen ---------------------------------------------------------

  /** The text shows one of the four by itself: no word character stands before or after it. */
  ghost predicate Identifies(core: Text) { Ssn(core) || Mrn(core) || Dob(core) || Patient(core) }

  ghost predicate ShowsIdentifier(s: Text, pre: Text, core: Text, post: Text) {
    s == pre + core + post && !EndsInWord(pre) && !StartsWithWord(post) && Identifies(core)
  }

  ghost predicate Shown(s: Text) { exists pre, core, post :: ShowsIdentifier(s, pre, core, post) }

  lemma Around(s: Text, i: nat, j: nat, pre: Text, core: Text, post: Text)
    requires i <= j <= |s| && pre == s[..i] && core == s[i..j] && post == s[j..]
    requires Identifies(core) && !EndsInWord(pre) && !StartsWithWord(post)
    ensures Shown(s)
  {
    assert s == pre + core + post;
    assert ShowsIdentifier(s, pre, core, post);
  }

  lemma PhiShows(s: Text)
    requires ObviousPhi(s)
    ensures Shown(s)
  {
    if i: nat :| i <= |s| && SsnAt(s, i) {
      SsnFound(s, i);
      Around(s, i, i + 11, s[..i], s[i..i + 11], s[i + 11..]);
    } else if i: nat, j: nat, k: nat :| i <= j <= k <= |s| && MrnAt(s, i, j, k) {
      MrnFound(s, i, j, k);
      Around(s, i, k, s[..i], s[i..k], s[k..]);
    } else if i: nat, j: nat, k: nat, l: nat, m: nat :| i <= j <= k <= l <= m <= |s| && DobAt(s, i, j, k, l, m) {
      DobFound(s, i, j, k, l, m);
      Around(s, i, m, s[..i], s[i..m], s[m..]);
    } else if i: nat, j: nat, k: nat :| i <= j <= k <= |s| && PatientAt(s, i, j, k) {
      PatientFound(s, i, j, k);
      Around(s, i, k, s[..i], s[i..k], s[k..]);
    }
  }

  lemma ShownIsPhi(s: Text, pre: Text, core: Text, post: Text)
    requires ShowsIdentifier(s, pre, core, post)
    ensures ObviousPhi(s)
  {
    if Ssn(core) {
      SsnThere(pre, core, post);
    } else if Mrn(core) {
      var t, n :| core == t + n && Labelled(t, Ascii("mrn")) && |n| >= 4 && AllDigits(n);
      MrnThere(pre, t, n, post);
      assert MrnAt(s, |pre|, |pre| + |t|, |pre| + |t| + |n|);
    } else if Dob(core) {
      var t, d, x: unit, m, y: unit, year :| DobParts(core, t, d, x, m, y, year);
      DobThere(pre, t, d, x, m, y, year, post);
    } else {
      var p, gap, noun :| PatientParts(core, p, gap, noun);
      PatientThere(pre, p, gap, noun, if Spelled(noun, Ascii("name")) then Ascii("name") else Ascii("id"), post);
    }
  }

  /** The screen refuses a text exactly when it shows an identifier. */
  lemma ObviousPhiIff(s: Text)
    ensures ObviousPhi(s) <==> Shown(s)
  {
    if ObviousPhi(s) {
      PhiShows(s);
    }
    if Shown(s) {
      var pre, core, post :| ShowsIdentifier(s, pre, core, post);
      ShownIsPhi(s, pre, core, post);
    }
  }
}
