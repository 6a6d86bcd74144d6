/** `collect_runtime_closure`: the worklist that binds every DLL a release artifact needs, to a copied
    bundle file or to an admitted operating-system provider. */
module DllClosure {
  import opened Prelude

  /** A DLL name and the lower-case basename of the file that imports it. */
  type Pair = (string, string)

  datatype Artifact = Artifact(basename: string, imports: seq<string>)

  /** A file of the compiler package: whether it resolves outside the package, and what `pe_imports`
      makes of it. */
  datatype BundleFile = BundleFile(escapes: bool, imports: Option<seq<string>>)

  /** `providers` maps an admitted provider to whether its file is still the recorded AMD64 image;
      `apiSet` is the proven schema lookup, per importer. */
  datatype Environment = Environment(
    bundle: map<string, BundleFile>, providers: map<string, bool>, aliases: map<string, string>,
    apiSet: (string, string) -> Option<string>)

  datatype OsEntry = OsEntry(first: Pair, importers: map<string, string>)

  datatype Closure = Closure(runtime: map<string, seq<string>>, os: map<string, OsEntry>)

  datatype Error = LegacyRuntime | Escaped | BadImage | ForeignAlias | NoApiProvider | Unresolved | ProviderChanged

  function LowerChar(c: char): (r: char) { if 'A' <= c <= 'Z' then c - 'A' + 'a' else c }

  function Lower(s: string): (t: string)
    ensures |t| == |s|
  {
    if s == "" then "" else [LowerChar(s[0])] + Lower(s[1..])
  }

  predicate StartsWith(s: string, prefix: string) { prefix <= s }

  predicate Legacy(name: string) { name == "msvcrt.dll" || StartsWith(name, "libgcc") || StartsWith(name, "libstdc++") }

  predicate IsApiSet(name: string) { StartsWith(name, "api-") || StartsWith(name, "ext-") }

  /** The operating-system provider of a name that is not bundled. */
  function Provider(env: Environment, name: string, importer: string): (r: Result<string, Error>) {
    var alias := if name in env.aliases then env.aliases[name] else name;
    if alias != name && !IsApiSet(name) then Err(ForeignAlias)
    else if IsApiSet(name) && env.apiSet(name, importer).None? then Err(NoApiProvider)
    else
      var selected := if IsApiSet(name) then env.apiSet(name, importer).value else alias;
      if Legacy(selected) then Err(LegacyRuntime)
      else if selected !in env.providers then Err(Unresolved)
      else if !env.providers[selected] then Err(ProviderChanged)
      else Ok(selected)
  }

  // ---- What must be bound -------------------------------------------------

  predicate IsRoot(artifacts: seq<Artifact>, p: Pair) {
    exists a, d :: a in artifacts && d in a.imports && p == (Lower(d), a.basename)
  }

  /** p is an import of the bundled file `from`. */
  predicate IsImport(env: Environment, from: string, p: Pair) {
    from in env.bundle && env.bundle[from].imports.Some? && p.1 == from &&
      exists d :: d in env.bundle[from].imports.value && p.0 == Lower(d)
  }

  /** A chain of imports from an artifact, through bundled files only. */
  predicate Chain(artifacts: seq<Artifact>, env: Environment, c: seq<Pair>) {
    c != [] && IsRoot(artifacts, c[0]) && forall k :: 0 < k < |c| ==> IsImport(env, c[k - 1].0, c[k])
  }

  ghost predicate Reachable(artifacts: seq<Artifact>, env: Environment, p: Pair) {
    exists c :: Chain(artifacts, env, c) && c[|c| - 1] == p
  }

  /** The checks one pair must pass. */
  predicate Admissible(env: Environment, p: Pair) {
    !Legacy(p.0) &&
    if p.0 in env.bundle
    then !env.bundle[p.0].escapes && env.bundle[p.0].imports.Some? && forall d :: d in env.bundle[p.0].imports.value ==>
      !Legacy(d)
    else Provider(env, p.0, p.1).Ok?
  }

  /** The pair is bound by the result. */
  predicate Bound(env: Environment, c: Closure, p: Pair) {
    if p.0 in env.bundle then p.0 in c.runtime
    else p.0 in c.os && p.1 in c.os[p.0].importers && Provider(env, p.0, p.1) == Ok(c.os[p.0].importers[p.1])
  }

  lemma ImportReachable(artifacts: seq<Artifact>, env: Environment, p: Pair, q: Pair)
    requires Reachable(artifacts, env, p) && IsImport(env, p.0, q)
    ensures Reachable(artifacts, env, q)
  {
    var c :| Chain(artifacts, env, c) && c[|c| - 1] == p;
    assert Chain(artifacts, env, c + [q]);
  }

  lemma RootReachable(artifacts: seq<Artifact>, env: Environment, p: Pair)
    requires IsRoot(artifacts, p)
    ensures Reachable(artifacts, env, p)
  {
    assert Chain(artifacts, env, [p]);
  }

  /** Examined pairs contain the roots and are closed under the imports of bundled files. */
  ghost predicate ClosedSet(artifacts: seq<Artifact>, env: Environment, examined: set<Pair>) {
    (forall p :: IsRoot(artifacts, p) ==> p in examined) &&
    forall p, q :: p in examined && IsImport(env, p.0, q) ==> q in examined
  }

  lemma {:induction false} ChainExamined(artifacts: seq<Artifact>, env: Environment, examined: set<Pair>, c: seq<Pair>)
    requires ClosedSet(artifacts, env, examined) && Chain(artifacts, env, c)
    ensures c[|c| - 1] in examined
  {
    if |c| <= 1 {
    } else {
      var n := |c| - 1;
      ChainExamined(artifacts, env, examined, c[..n]);
      assert IsImport(env, c[n - 1].0, c[n]);
    }
  }

  // ---- The worklist -------------------------------------------------------

  function Key(p: Pair): (r: Pair) { (Lower(p.0), p.1) }

  /** Everything the worklist can ever hold. */
  ghost function Universe(artifacts: seq<Artifact>, env: Environment): (r: set<Pair>) {
    (set a, d | a in artifacts && d in a.imports :: (Lower(d), a.basename)) +
    (set f, d | f in env.bundle && env.bundle[f].imports.Some? && d in env.bundle[f].imports.value :: (Lower(d), f))
  }

  /** A required pair was examined or still waits. */
  ghost predicate Covered(examined: set<Pair>, pending: seq<Pair>, p: Pair) {
    p in examined || exists k :: 0 <= k < |pending| && Key(pending[k]) == p
  }

  ghost predicate Sound(artifacts: seq<Artifact>, env: Environment, examined: set<Pair>, pending: seq<Pair>) {
    (forall p :: p in examined ==> Reachable(artifacts, env, p) && p in Universe(artifacts, env)) &&
    forall k :: 0 <= k < |pending| ==>
      Reachable(artifacts, env, Key(pending[k])) && Key(pending[k]) in Universe(artifacts, env)
  }

  ghost predicate Complete(artifacts: seq<Artifact>, env: Environment, c: Closure, examined: set<Pair>,
      pending: seq<Pair>)
  {
    (forall p :: IsRoot(artifacts, p) ==> Covered(examined, pending, p)) &&
    forall f, q :: f in c.runtime && IsImport(env, f, q) ==> Covered(examined, pending, q)
  }

  ghost predicate Consistent(env: Environment, c: Closure, examined: set<Pair>) {
    (forall p :: p in examined ==> Admissible(env, p) && Bound(env, c, p)) &&
    (forall f :: f in c.runtime ==>
      f in env.bundle && env.bundle[f].imports == Some(c.runtime[f]) && exists i :: (f, i) in examined) &&
    forall n :: n in c.os ==> n !in env.bundle && c.os[n].importers != map[] && forall i :: i in c.os[n].importers ==>
      (n, i) in examined
  }

  function PairsOf(imports: seq<string>, importer: string): (ps: seq<Pair>)
    ensures |ps| == |imports| && forall k :: 0 <= k < |imports| ==> ps[k] == (imports[k], importer)
  {
    seq(|imports|, k requires 0 <= k < |imports| => (imports[k], importer))
  }

  function RootPairs(artifacts: seq<Artifact>): (r: seq<Pair>) {
    if artifacts == [] then []
    else
      var n := |artifacts| - 1;
      RootPairs(artifacts[..n]) + PairsOf(artifacts[n].imports, artifacts[n].basename)
  }

  lemma {:induction false} RootPairsAreRoots(artifacts: seq<Artifact>, k: nat)
    requires k < |RootPairs(artifacts)|
    ensures IsRoot(artifacts, Key(RootPairs(artifacts)[k]))
  {
    var n := |artifacts| - 1;
    var rest := RootPairs(artifacts[..n]);
    if k < |rest| {
      RootPairsAreRoots(artifacts[..n], k);
    } else {
      var a := artifacts[n];
      assert a in artifacts && a.imports[k - |rest|] in a.imports;
    }
  }

  lemma {:induction false} RootsListed(artifacts: seq<Artifact>, p: Pair)
    requires IsRoot(artifacts, p)
    ensures exists k :: 0 <= k < |RootPairs(artifacts)| && Key(RootPairs(artifacts)[k]) == p
  {
    var n := |artifacts| - 1;
    var rest := RootPairs(artifacts[..n]);
    var a, d :| a in artifacts && d in a.imports && p == (Lower(d), a.basename);
    if a in artifacts[..n] {
      RootsListed(artifacts[..n], p);
      var k :| 0 <= k < |rest| && Key(rest[k]) == p;
      assert RootPairs(artifacts)[k] == rest[k];
    } else {
      var j :| 0 <= j < |a.imports| && a.imports[j] == d;
      assert Key(RootPairs(artifacts)[|rest| + j]) == p;
    }
  }

  lemma StartSound(artifacts: seq<Artifact>, env: Environment)
    ensures Sound(artifacts, env, {}, RootPairs(artifacts)) &&
            Complete(artifacts, env, Closure(map[], map[]), {}, RootPairs(artifacts))
  {
    var ps := RootPairs(artifacts);
    forall k | 0 <= k < |ps| ensures Reachable(artifacts, env, Key(ps[k])) && Key(ps[k]) in Universe(artifacts, env) {
      RootPairsAreRoots(artifacts, k);
      RootReachable(artifacts, env, Key(ps[k]));
    }
    forall p | IsRoot(artifacts, p) ensures Covered({}, ps, p) {
      RootsListed(artifacts, p);
    }
  }

  /** Removing an examined pair from the list, or adding pairs to either side, loses nothing. */
  lemma CoveredStays(examined: set<Pair>, pending: seq<Pair>, more: seq<Pair>, p: Pair)
    requires pending != [] && Covered(examined, pending, p)
    ensures Covered(examined + {Key(pending[|pending| - 1])}, pending[..|pending| - 1] + more, p)
  {
    var n := |pending| - 1;
    if p !in examined && p != Key(pending[n]) {
      var k :| 0 <= k < |pending| && Key(pending[k]) == p;
      assert (pending[..n] + more)[k] == pending[k];
    }
  }

  /** One examined pair: the list keeps covering every required pair, new imports included. */
  lemma ExamineComplete(artifacts: seq<Artifact>, env: Environment, c: Closure, d: Closure, examined: set<Pair>,
      pending: seq<Pair>, more: seq<Pair>)
    requires pending != [] && Complete(artifacts, env, c, examined, pending)
    requires forall f, q :: f in d.runtime && f !in c.runtime && IsImport(env, f, q) ==>
             exists k :: 0 <= k < |more| && Key(more[k]) == q
    ensures Complete(artifacts, env, d, examined + {Key(pending[|pending| - 1])}, pending[..|pending| - 1] + more)
  {
    var n := |pending| - 1;
    var left := pending[..n] + more;
    forall p | IsRoot(artifacts, p) ensures Covered(examined + {Key(pending[n])}, left, p) {
      CoveredStays(examined, pending, more, p);
    }
    forall f, q | f in d.runtime && IsImport(env, f, q) ensures Covered(examined + {Key(pending[n])}, left, q) {
      if f in c.runtime {
        CoveredStays(examined, pending, more, q);
      } else {
        var k :| 0 <= k < |more| && Key(more[k]) == q;
        assert left[n + k] == more[k];
      }
    }
  }

  lemma ExamineSound(artifacts: seq<Artifact>, env: Environment, examined: set<Pair>, pending: seq<Pair>,
      more: seq<Pair>)
    requires pending != [] && Sound(artifacts, env, examined, pending)
    requires forall k :: 0 <= k < |more| ==> IsImport(env, Key(pending[|pending| - 1]).0, Key(more[k]))
    ensures Sound(artifacts, env, examined + {Key(pending[|pending| - 1])}, pending[..|pending| - 1] + more)
  {
    var n := |pending| - 1;
    var left := pending[..n] + more;
    forall k | 0 <= k < |left| ensures Reachable(artifacts, env, Key(left[k])) &&
      Key(left[k]) in Universe(artifacts, env) {
      if k >= n {
        assert left[k] == more[k - n];
        ImportReachable(artifacts, env, Key(pending[n]), Key(left[k]));
      }
    }
  }

  lemma ImportsListed(env: Environment, name: string, q: Pair)
    requires name in env.bundle && env.bundle[name].imports.Some?
    ensures var more := PairsOf(env.bundle[name].imports.value, name);
            (forall k :: 0 <= k < |more| ==> IsImport(env, name, Key(more[k]))) &&
            (IsImport(env, name, q) ==> exists k :: 0 <= k < |more| && Key(more[k]) == q)
  {
    var imports := env.bundle[name].imports.value;
    var more := PairsOf(imports, name);
    if IsImport(env, name, q) {
      var d :| d in imports && q.0 == Lower(d);
      var k :| 0 <= k < |imports| && imports[k] == d;
      assert Key(more[k]) == q;
    }
  }

  lemma AlreadyBundled(env: Environment, c: Closure, examined: set<Pair>, p: Pair)
    requires Consistent(env, c, examined) && p.0 in c.runtime
    ensures Consistent(env, c, examined + {p})
  {
    var i :| (p.0, i) in examined;
    assert Admissible(env, (p.0, i));
  }

  lemma BundleOne(env: Environment, c: Closure, examined: set<Pair>, p: Pair)
    requires Consistent(env, c, examined) && p.0 in env.bundle && Admissible(env, p)
    ensures Consistent(env, c.(runtime := c.runtime[p.0 := env.bundle[p.0].imports.value]), examined + {p})
  {
    var d := c.(runtime := c.runtime[p.0 := env.bundle[p.0].imports.value]);
    assert p == (p.0, p.1) && (p.0, p.1) in examined + {p};
    forall f | f in d.runtime ensures exists i :: (f, i) in examined + {p} {
      if f in c.runtime {
        var i :| (f, i) in examined;
        assert (f, i) in examined + {p};
      }
    }
    forall q | q in examined + {p} ensures Bound(env, d, q) {
      assert q in examined ==> Bound(env, c, q);
    }
  }

  function WithOs(c: Closure, name: string, importer: string, selected: string): (r: Closure) {
    var entry := if name in c.os then c.os[name] else OsEntry((selected, importer), map[]);
    c.(os := c.os[name := entry.(importers := entry.importers[importer := selected])])
  }

  /** Binding one more importer to a provider leaves every other binding alone. */
  lemma WithOsKeeps(env: Environment, c: Closure, p: Pair, q: Pair)
    requires p.0 !in env.bundle && Provider(env, p.0, p.1).Ok? && Bound(env, c, q)
    ensures Bound(env, WithOs(c, p.0, p.1, Provider(env, p.0, p.1).value), q)
  {
  }

  lemma ProvideOne(env: Environment, c: Closure, examined: set<Pair>, p: Pair)
    requires Consistent(env, c, examined) && p.0 !in env.bundle && !Legacy(p.0) && Provider(env, p.0, p.1).Ok?
    ensures Consistent(env, WithOs(c, p.0, p.1, Provider(env, p.0, p.1).value), examined + {p})
  {
    var d := WithOs(c, p.0, p.1, Provider(env, p.0, p.1).value);
    assert p == (p.0, p.1);
    forall q | q in examined + {p} ensures Bound(env, d, q) {
      if q in examined {
        WithOsKeeps(env, c, p, q);
      }
    }
    forall f | f in d.runtime ensures exists i :: (f, i) in examined + {p} {
      var i :| (f, i) in examined;
      assert (f, i) in examined + {p};
    }
    assert p.1 in d.os[p.0].importers;
    forall n | n in d.os ensures d.os[n].importers != map[] {
      if n != p.0 {
        assert d.os[n] == c.os[n];
      }
    }
  }

  ghost predicate AllBound(artifacts: seq<Artifact>, env: Environment, c: Closure) {
    forall p :: Reachable(artifacts, env, p) ==> Admissible(env, p) && Bound(env, c, p)
  }

  ghost predicate Required(artifacts: seq<Artifact>, env: Environment, name: string) {
    exists i :: Reachable(artifacts, env, (name, i))
  }

  ghost predicate NothingExtra(artifacts: seq<Artifact>, env: Environment, c: Closure) {
    (forall f :: f in c.runtime ==>
      f in env.bundle && env.bundle[f].imports == Some(c.runtime[f]) && Required(artifacts, env, f)) &&
    (forall n, i :: n in c.os && i in c.os[n].importers ==> Reachable(artifacts, env, (n, i))) &&
    forall n :: n in c.os ==> n !in c.runtime && c.os[n].importers != map[]
  }

  /** The result is the import closure: what is bound is exactly what is reachable, and every reachable
      pair passed its checks. */
  ghost predicate IsClosure(artifacts: seq<Artifact>, env: Environment, c: Closure) {
    AllBound(artifacts, env, c) && NothingExtra(artifacts, env, c)
  }

  lemma NothingLeftIsClosed(artifacts: seq<Artifact>, env: Environment, c: Closure, examined: set<Pair>)
    requires Complete(artifacts, env, c, examined, []) && Consistent(env, c, examined)
    ensures ClosedSet(artifacts, env, examined)
  {
    assert forall p :: Covered(examined, [], p) ==> p in examined;
    forall p, q | p in examined && IsImport(env, p.0, q) ensures q in examined {
      assert Bound(env, c, p);
      assert Covered(examined, [], q);
    }
  }

  lemma ExaminedIsAll(artifacts: seq<Artifact>, env: Environment, c: Closure, examined: set<Pair>)
    requires ClosedSet(artifacts, env, examined) && Consistent(env, c, examined)
    ensures AllBound(artifacts, env, c)
  {
    forall p | Reachable(artifacts, env, p) ensures p in examined {
      var ch :| Chain(artifacts, env, ch) && ch[|ch| - 1] == p;
      ChainExamined(artifacts, env, examined, ch);
    }
  }

  lemma ExaminedIsRequired(artifacts: seq<Artifact>, env: Environment, c: Closure, examined: set<Pair>)
    requires Sound(artifacts, env, examined, []) && Consistent(env, c, examined)
    ensures NothingExtra(artifacts, env, c)
  {
    forall f | f in c.runtime ensures Required(artifacts, env, f) {
      var i :| (f, i) in examined;
      assert Reachable(artifacts, env, (f, i));
    }
  }

  ghost predicate Working(artifacts: seq<Artifact>, env: Environment, c: Closure, examined: set<Pair>,
      pending: seq<Pair>)
  {
    Sound(artifacts, env, examined, pending) && Complete(artifacts, env, c, examined, pending) &&
      Consistent(env, c, examined)
  }

  lemma FinishedIsClosure(artifacts: seq<Artifact>, env: Environment, c: Closure, examined: set<Pair>)
    requires Working(artifacts, env, c, examined, [])
    ensures IsClosure(artifacts, env, c)
  {
    NothingLeftIsClosed(artifacts, env, c, examined);
    ExaminedIsAll(artifacts, env, c, examined);
    ExaminedIsRequired(artifacts, env, c, examined);
  }

  // ---- One turn of the loop, case by case ---------------------------------

  lemma PoppedIsRequired(artifacts: seq<Artifact>, env: Environment, c: Closure, examined: set<Pair>,
      pending: seq<Pair>)
    requires Working(artifacts, env, c, examined, pending) && pending != []
    ensures var p := Key(pending[|pending| - 1]); Reachable(artifacts, env, p) && p in Universe(artifacts, env)
  {
  }

  lemma CoveredSeen(examined: set<Pair>, pending: seq<Pair>, p: Pair)
    requires pending != [] && Key(pending[|pending| - 1]) in examined && Covered(examined, pending, p)
    ensures Covered(examined, pending[..|pending| - 1], p)
  {
    if p !in examined {
      var k :| 0 <= k < |pending| && Key(pending[k]) == p;
      assert pending[..|pending| - 1][k] == pending[k];
    }
  }

  lemma SoundSeen(artifacts: seq<Artifact>, env: Environment, examined: set<Pair>, pending: seq<Pair>)
    requires pending != [] && Sound(artifacts, env, examined, pending)
    ensures Sound(artifacts, env, examined, pending[..|pending| - 1])
  {
    var left := pending[..|pending| - 1];
    forall k | 0 <= k < |left| ensures Reachable(artifacts, env, Key(left[k])) &&
      Key(left[k]) in Universe(artifacts, env) {
      assert left[k] == pending[k];
    }
  }

  lemma CompleteSeen(artifacts: seq<Artifact>, env: Environment, c: Closure, examined: set<Pair>, pending: seq<Pair>)
    requires pending != [] && Complete(artifacts, env, c, examined, pending) && Key(pending[|pending| - 1]) in examined
    ensures Complete(artifacts, env, c, examined, pending[..|pending| - 1])
  {
    var left := pending[..|pending| - 1];
    forall p | IsRoot(artifacts, p) ensures Covered(examined, left, p) {
      CoveredSeen(examined, pending, p);
    }
    forall f, q | f in c.runtime && IsImport(env, f, q) ensures Covered(examined, left, q) {
      CoveredSeen(examined, pending, q);
    }
  }

  lemma SeenStep(artifacts: seq<Artifact>, env: Environment, c: Closure, examined: set<Pair>, pending: seq<Pair>)
    requires Working(artifacts, env, c, examined, pending) && pending != [] && Key(pending[|pending| - 1]) in examined
    ensures Working(artifacts, env, c, examined, pending[..|pending| - 1])
  {
    SoundSeen(artifacts, env, examined, pending);
    CompleteSeen(artifacts, env, c, examined, pending);
  }

  /** Examining the last pair without new imports. */
  lemma NothingNewStep(artifacts: seq<Artifact>, env: Environment, c: Closure, d: Closure, examined: set<Pair>,
      pending: seq<Pair>)
    requires Working(artifacts, env, c, examined, pending) && pending != [] && d.runtime == c.runtime
    requires Consistent(env, d, examined + {Key(pending[|pending| - 1])})
    ensures Working(artifacts, env, d, examined + {Key(pending[|pending| - 1])}, pending[..|pending| - 1])
  {
    assert pending[..|pending| - 1] + [] == pending[..|pending| - 1];
    ExamineComplete(artifacts, env, c, d, examined, pending, []);
    ExamineSound(artifacts, env, examined, pending, []);
  }

  lemma BundledStep(artifacts: seq<Artifact>, env: Environment, c: Closure, examined: set<Pair>, pending: seq<Pair>)
    requires Working(artifacts, env, c, examined, pending) && pending != [] &&
             Key(pending[|pending| - 1]).0 in c.runtime
    ensures Working(artifacts, env, c, examined + {Key(pending[|pending| - 1])}, pending[..|pending| - 1])
  {
    AlreadyBundled(env, c, examined, Key(pending[|pending| - 1]));
    NothingNewStep(artifacts, env, c, c, examined, pending);
  }

  lemma CopyStep(artifacts: seq<Artifact>, env: Environment, c: Closure, examined: set<Pair>, pending: seq<Pair>)
    requires Working(artifacts, env, c, examined, pending) && pending != []
    requires var p := Key(pending[|pending| - 1]); p.0 in env.bundle && Admissible(env, p)
    ensures var name := Key(pending[|pending| - 1]).0;
            var imports := env.bundle[name].imports.value;
            Working(artifacts, env, c.(runtime := c.runtime[name := imports]), examined + {Key(pending[|pending| - 1])},
                    pending[..|pending| - 1] + PairsOf(imports, name))
  {
    var p := Key(pending[|pending| - 1]);
    var more := PairsOf(env.bundle[p.0].imports.value, p.0);
    var d := c.(runtime := c.runtime[p.0 := env.bundle[p.0].imports.value]);
    ImportsListed(env, p.0, p);
    forall f, q | f in d.runtime && f !in c.runtime && IsImport(env, f, q)
      ensures exists k :: 0 <= k < |more| && Key(more[k]) == q {
      ImportsListed(env, p.0, q);
    }
    ExamineComplete(artifacts, env, c, d, examined, pending, more);
    ExamineSound(artifacts, env, examined, pending, more);
    BundleOne(env, c, examined, p);
  }

  lemma ProvideStep(artifacts: seq<Artifact>, env: Environment, c: Closure, examined: set<Pair>, pending: seq<Pair>)
    requires Working(artifacts, env, c, examined, pending) && pending != []
    requires var p := Key(pending[|pending| - 1]); p.0 !in env.bundle && Admissible(env, p)
    ensures var p := Key(pending[|pending| - 1]);
            Working(artifacts, env, WithOs(c, p.0, p.1, Provider(env, p.0, p.1).value), examined + {p},
              pending[..|pending| - 1])
  {
    var p := Key(pending[|pending| - 1]);
    ProvideOne(env, c, examined, p);
    NothingNewStep(artifacts, env, c, WithOs(c, p.0, p.1, Provider(env, p.0, p.1).value), examined, pending);
  }

  /** A name that must be bound is never a legacy runtime, wherever it ends up. */
  lemma ClosureHasNoLegacy(artifacts: seq<Artifact>, env: Environment, c: Closure, name: string)
    requires IsClosure(artifacts, env, c) && (name in c.runtime || name in c.os)
    ensures !Legacy(name)
  {
    if name in c.runtime {
      var i :| Reachable(artifacts, env, (name, i));
      assert Admissible(env, (name, i));
    } else {
      var i :| i in c.os[name].importers;
      assert Admissible(env, (name, i));
    }
  }

  datatype Worklist = Worklist(closure: Closure, examined: set<Pair>, pending: seq<Pair>)

  ghost predicate Invariant(artifacts: seq<Artifact>, env: Environment, w: Worklist) {
    Working(artifacts, env, w.closure, w.examined, w.pending)
  }

  /** One turn of the loop: the popped pair is refused, skipped, copied or bound to a provider. */
  method ExamineOne(artifacts: seq<Artifact>, env: Environment, w: Worklist) returns (r: Result<Worklist, Error>)
    requires Invariant(artifacts, env, w) && w.pending != []
    ensures r.Err? ==> !Admissible(env, Key(w.pending[|w.pending| - 1]))
    ensures r.Ok? ==> Invariant(artifacts, env, r.value)
    ensures r.Ok? ==> if Key(w.pending[|w.pending| - 1]) in w.examined then r.value.examined == w.examined &&
            |r.value.pending| < |w.pending|
                      else r.value.examined == w.examined + {Key(w.pending[|w.pending| - 1])}
  {
    var Worklist(c, examined, pending) := w;
    var n := |pending| - 1;
    var popped := Key(pending[n]);
    var (name, importer) := popped;
    if Legacy(name) {
      return Err(LegacyRuntime);
    }
    if popped in examined {
      SeenStep(artifacts, env, c, examined, pending);
      return Ok(Worklist(c, examined, pending[..n]));
    }
    if name in c.runtime {
      BundledStep(artifacts, env, c, examined, pending);
      return Ok(Worklist(c, examined + {popped}, pending[..n]));
    }
    if name in env.bundle {
      if env.bundle[name].escapes {
        return Err(Escaped);
      }
      if env.bundle[name].imports.None? {
        return Err(BadImage);
      }
      var imports := env.bundle[name].imports.value;
      if exists d :: d in imports && Legacy(d) {
        return Err(LegacyRuntime);
      }
      CopyStep(artifacts, env, c, examined, pending);
      return Ok(Worklist(c.(runtime := c.runtime[name := imports]), examined + {popped},
        pending[..n] + PairsOf(imports, name)));
    }
    var provider := Provider(env, name, importer);
    if provider.Err? {
      return Err(provider.error);
    }
    ProvideStep(artifacts, env, c, examined, pending);
    return Ok(Worklist(WithOs(c, name, importer, provider.value), examined + {popped}, pending[..n]));
  }

  /** The worklist ends with the closure exactly when every reachable pair is admissible. */
  method CollectRuntimeClosure(artifacts: seq<Artifact>, env: Environment) returns (r: Result<Closure, Error>)
    ensures r.Ok? ==> IsClosure(artifacts, env, r.value)
    ensures r.Err? ==> exists p :: Reachable(artifacts, env, p) && !Admissible(env, p)
  {
    var w := Worklist(Closure(map[], map[]), {}, RootPairs(artifacts));
    StartSound(artifacts, env);
    while w.pending != []
      invariant Invariant(artifacts, env, w)
      decreases Universe(artifacts, env) - w.examined, |w.pending|
    {
      PoppedIsRequired(artifacts, env, w.closure, w.examined, w.pending);
      var step := ExamineOne(artifacts, env, w);
      if step.Err? {
        return Err(step.error);
      }
      w := step.value;
    }
    FinishedIsClosure(artifacts, env, w.closure, w.examined);
    return Ok(w.closure);
  }
}
