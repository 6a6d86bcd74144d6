/** What the runtime closure refuses and binds, said about names and providers themselves. */
module DllLaws {
  import opened Prelude
  import opened DllClosure

  // ---- Names --------------------------------------------------------------

  /** Capital ASCII letters become the small ones, and nothing else changes. */
  lemma {:induction false} LowerAt(s: string, k: nat)
    requires k < |s|
    ensures LetterPair(s[k], Lower(s)[k]) || (Lower(s)[k] == s[k] && forall d :: !LetterPair(s[k], d))
  {
    if k == 0 {
      LetterPairIff(s[0], Lower(s)[0]);
      forall d {
        LetterPairIff(s[0], d);
      }
    } else {
      LowerAt(s[1..], k - 1);
    }
  }

  /** The legacy C runtime, the unwinder of GCC and the GNU C++ library. */
  predicate LegacyName(name: string) {
    name == "msvcrt.dll" || (|name| >= 6 && name[..6] == "libgcc") || (|name| >= 9 && name[..9] == "libstdc++")
  }

  /** A name that stands for an API set. */
  predicate ApiName(name: string) { |name| >= 4 && name[..4] in {"api-", "ext-"} }

  lemma NamesAre(name: string)
    ensures Legacy(name) <==> LegacyName(name)
    ensures IsApiSet(name) <==> ApiName(name)
  {
    assert |name| >= 4 ==> ("api-" <= name <==> name[..4] == "api-") && ("ext-" <= name <==> name[..4] == "ext-");
    assert |name| >= 6 ==> ("libgcc" <= name <==> name[..6] == "libgcc");
    assert |name| >= 9 ==> ("libstdc++" <= name <==> name[..9] == "libstdc++");
  }

  // ---- Providers ----------------------------------------------------------

  /** What an unbundled name leads to: the schema's answer for an API set, itself otherwise. */
  predicate LeadsTo(env: Environment, name: string, importer: string, provider: string) {
    if ApiName(name) then env.apiSet(name, importer) == Some(provider)
    else provider == name && (name in env.aliases ==> env.aliases[name] == name)
  }

  /** An unbundled name is bound to a provider exactly when it leads there, and the provider is admitted,
      unchanged and not a legacy runtime. */
  lemma ProviderIff(env: Environment, name: string, importer: string, provider: string)
    ensures Provider(env, name, importer) == Ok(provider) <==>
            && LeadsTo(env, name, importer, provider)
            && provider in env.providers && env.providers[provider] && !LegacyName(provider)
  {
    NamesAre(name);
    NamesAre(provider);
    if !IsApiSet(name) {
      NamesAre(if name in env.aliases then env.aliases[name] else name);
    } else if env.apiSet(name, importer).Some? {
      NamesAre(env.apiSet(name, importer).value);
    }
  }

  /** Why a name that leads somewhere is refused. */
  lemma ProviderRefused(env: Environment, name: string, importer: string, provider: string)
    requires LeadsTo(env, name, importer, provider)
    ensures LegacyName(provider) ==> Provider(env, name, importer) == Err(LegacyRuntime)
    ensures !LegacyName(provider) && provider !in env.providers ==> Provider(env, name, importer) == Err(Unresolved)
    ensures !LegacyName(provider) && provider in env.providers && !env.providers[provider] ==>
              Provider(env, name, importer) == Err(ProviderChanged)
  {
    NamesAre(name);
    NamesAre(provider);
  }

  /** And one that leads nowhere: an alias for something else, or an API set without a provider. */
  lemma NowhereRefused(env: Environment, name: string, importer: string)
    requires forall provider :: !LeadsTo(env, name, importer, provider)
    ensures Provider(env, name, importer) == Err(if ApiName(name) then NoApiProvider else ForeignAlias)
  {
    NamesAre(name);
    if ApiName(name) {
      if env.apiSet(name, importer).Some? {
        assert LeadsTo(env, name, importer, env.apiSet(name, importer).value);
      }
    } else {
      assert !LeadsTo(env, name, importer, name);
    }
  }

  // ---- The closure --------------------------------------------------------

  /** The checks a reachable pair must pass: no legacy name; a bundled file inside the package, readable and
      without legacy imports; a provider for anything else. */
  lemma AdmissibleIff(env: Environment, name: string, importer: string)
    ensures Admissible(env, (name, importer)) <==>
            && !LegacyName(name)
            && (if name in env.bundle
                then
                  var f := env.bundle[name];
                  !f.escapes && f.imports.Some? && forall d :: d in f.imports.value ==> !LegacyName(d)
                else
                  exists p :: LeadsTo(env, name, importer, p) && p in env.providers && env.providers[p] &&
                    !LegacyName(p))
  {
    NamesAre(name);
    if name in env.bundle {
      if env.bundle[name].imports.Some? {
        forall d | d in env.bundle[name].imports.value ensures Legacy(d) <==> LegacyName(d) {
          NamesAre(d);
        }
      }
    } else {
      forall p ensures Provider(env, name, importer) == Ok(p) <==>
                       LeadsTo(env, name, importer, p) && p in env.providers && env.providers[p] && !LegacyName(p) {
        ProviderIff(env, name, importer, p);
      }
      if Provider(env, name, importer).Ok? {
        var p := Provider(env, name, importer).value;
        assert LeadsTo(env, name, importer, p);
      }
    }
  }

  /** Every operating-system library of a closure is bound, for every importer, to an admitted, unchanged
      provider it leads to. */
  lemma BoundProviders(artifacts: seq<Artifact>, env: Environment, c: Closure, name: string, importer: string)
    requires IsClosure(artifacts, env, c) && name in c.os && importer in c.os[name].importers
    ensures var p := c.os[name].importers[importer];
            LeadsTo(env, name, importer, p) && p in env.providers && env.providers[p] && !LegacyName(p)
    ensures !LegacyName(name) && name !in env.bundle
  {
    var p := c.os[name].importers[importer];
    assert Reachable(artifacts, env, (name, importer));
    assert Admissible(env, (name, importer)) && Bound(env, c, (name, importer));
    NamesAre(name);
    ProviderIff(env, name, importer, p);
  }

  /** A bundled file of a closure stays inside the package, and none of its imports is a legacy runtime. */
  lemma BoundFiles(artifacts: seq<Artifact>, env: Environment, c: Closure, name: string)
    requires IsClosure(artifacts, env, c) && name in c.runtime
    ensures name in env.bundle && !env.bundle[name].escapes && env.bundle[name].imports == Some(c.runtime[name])
    ensures !LegacyName(name) && forall d :: d in c.runtime[name] ==> !LegacyName(d)
    ensures forall d :: d in c.runtime[name] ==> Lower(d) in c.runtime || Lower(d) in c.os
  {
    var i :| Reachable(artifacts, env, (name, i));
    assert Admissible(env, (name, i));
    NamesAre(name);
    forall d | d in c.runtime[name] ensures !LegacyName(d) && (Lower(d) in c.runtime || Lower(d) in c.os) {
      NamesAre(d);
      assert IsImport(env, name, (Lower(d), name));
      ImportReachable(artifacts, env, (name, i), (Lower(d), name));
      assert Bound(env, c, (Lower(d), name));
    }
  }

  /** Everything an artifact imports is in the closure. */
  lemma ArtifactsBound(artifacts: seq<Artifact>, env: Environment, c: Closure, a: Artifact, d: string)
    requires IsClosure(artifacts, env, c) && a in artifacts && d in a.imports
    ensures Lower(d) in c.runtime || Lower(d) in c.os
  {
    assert IsRoot(artifacts, (Lower(d), a.basename));
    RootReachable(artifacts, env, (Lower(d), a.basename));
    assert Bound(env, c, (Lower(d), a.basename));
  }
}
