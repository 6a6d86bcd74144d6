/** `tree_entries`: admission of the tracked files of a Git tree for a snapshot on Windows. */
module TreeEntries {
  import opened Prelude

  /** One `ls-tree` record. */
  datatype Record = Record(name: string, mode: string, kind: string, oid: string)

  datatype Entry = Entry(name: string, mode: string, oid: string)

  datatype Error = LinkedSource | InvalidIdentity | UnsafePath | ReservedPath | Noncanonical | CaseCollision | Duplicate

  /** Unicode case mapping, which is not part of this model. */
  datatype Casing = Casing(fold: string -> string, upper: string -> string)

  // ---- Paths --------------------------------------------------------------

  /** The text up to the separator. */
  function Until(s: string, c: char): (t: string)
    ensures t <= s && c !in t && (t == s || s[|t|] == c)
  {
    if s == "" || s[0] == c then "" else [s[0]] + Until(s[1..], c)
  }

  /** Components of a path; empty ones and `.` are dropped. */
  function Components(name: string): (r: seq<string>)
    decreases |name|
  {
    if name == "" then []
    else
      var first := Until(name, '/');
      var rest := if |first| == |name| then [] else Components(name[|first| + 1..]);
      if first == "" || first == "." then rest else [first] + rest
  }

  function Joined(parts: seq<string>): (r: string) {
    if parts == [] then "" else if |parts| == 1 then parts[0] else parts[0] + "/" + Joined(parts[1..])
  }

  /** `rstrip(" .")`. */
  function StripEnd(s: string): (t: string)
    ensures t <= s
  {
    DropBack(s, c => c == ' ' || c == '.')
  }

  predicate DeviceName(stem: string) {
    stem in {"AUX", "CON", "NUL", "PRN"} || (|stem| == 4 && stem[..3] in {"COM", "LPT"} && '1' <= stem[3] <= '9')
  }

  predicate SafePart(part: string, c: Casing) {
    && c.fold(part) != "$null"
    && part == StripEnd(part)
    && (forall i :: 0 <= i < |part| ==> part[i] >= ' ' && part[i] !in {'<', '>', '"', '|', '?', '*'})
    && !DeviceName(c.upper(Until(StripEnd(part), '.')))
  }

  predicate Relative(name: string) {
    name != "" && name[0] != '/' && Components(name) != [] && ".." !in Components(name) && '\\' !in name && ':' !in name
  }

  /** `safe_name`. */
  function SafeName(name: string, c: Casing): (r: Result<seq<string>, Error>) {
    if !Relative(name) then Err(UnsafePath)
    else if exists i :: 0 <= i < |Components(name)| && !SafePart(Components(name)[i], c) then Err(ReservedPath)
    else Ok(Components(name))
  }

  predicate ObjectId(oid: string)
  {
    |oid| == 40 && forall i :: 0 <= i < |oid| ==> 'a' <= oid[i] <= 'f' || '0' <= oid[i] <= '9'
  }

  /** The checks of one record on its own. */
  function Admit(r: Record, c: Casing): (res: Result<seq<string>, Error>) {
    if !(r.mode in {"100644", "100755"} && r.kind == "blob") then Err(LinkedSource)
    else if !ObjectId(r.oid) then Err(InvalidIdentity)
    else
      var parts :- SafeName(r.name, c);
      if Joined(parts) != r.name then Err(Noncanonical) else Ok(parts)
  }

  // ---- Aliases ------------------------------------------------------------

  /** The path of every directory on the way to the file, and of the file. */
  function Prefixes(name: string): (p: seq<string>)
    ensures |p| == |Components(name)|
  {
    var parts := Components(name);
    seq(|parts|, k requires 0 <= k < |parts| => Joined(parts[..k + 1]))
  }

  function AllPrefixes(rs: seq<Record>): (r: seq<string>) {
    if rs == [] then [] else AllPrefixes(rs[..|rs| - 1]) + Prefixes(rs[|rs| - 1].name)
  }

  /** Paths that differ only in case do not both occur. */
  ghost predicate AliasFree(paths: seq<string>, c: Casing) {
    forall i, j :: 0 <= i < |paths| && 0 <= j < |paths| && c.fold(paths[i]) == c.fold(paths[j]) ==> paths[i] == paths[j]
  }

  predicate DistinctNames(rs: seq<Record>) { forall i, j :: 0 <= i < j < |rs| ==> rs[i].name != rs[j].name }

  predicate AllAdmitted(rs: seq<Record>, c: Casing) { forall i :: 0 <= i < |rs| ==> Admit(rs[i], c).Ok? }

  /** What the filter is to accept. */
  ghost predicate Acceptable(rs: seq<Record>, c: Casing) {
    AllAdmitted(rs, c) && DistinctNames(rs) && AliasFree(AllPrefixes(rs), c)
  }

  /** The dictionary holds exactly the paths seen, under their folded form. */
  ghost predicate Knows(prefixes: map<string, string>, seen: seq<string>, c: Casing) {
    && (forall i :: 0 <= i < |seen| ==> c.fold(seen[i]) in prefixes && prefixes[c.fold(seen[i])] == seen[i])
    && (forall k :: k in prefixes ==> c.fold(prefixes[k]) == k && prefixes[k] in seen)
  }

  lemma KnownIsAliasFree(prefixes: map<string, string>, seen: seq<string>, c: Casing)
    requires Knows(prefixes, seen, c)
    ensures AliasFree(seen, c)
  {
  }

  lemma CollisionIsAlias(prefixes: map<string, string>, seen: seq<string>, path: string, c: Casing)
    requires Knows(prefixes, seen, c) && c.fold(path) in prefixes && prefixes[c.fold(path)] != path
    ensures !AliasFree(seen + [path], c)
  {
    var other := prefixes[c.fold(path)];
    var i :| 0 <= i < |seen| && seen[i] == other;
    var all := seen + [path];
    assert all[i] == other && all[|seen|] == path;
  }

  lemma AliasFreePrefix(part: seq<string>, whole: seq<string>, c: Casing)
    requires part <= whole && AliasFree(whole, c)
    ensures AliasFree(part, c)
  {
    assert forall i :: 0 <= i < |part| ==> part[i] == whole[i];
  }

  lemma {:induction false} AllPrefixesGrow(rs: seq<Record>, i: nat)
    requires i <= |rs|
    ensures AllPrefixes(rs[..i]) <= AllPrefixes(rs)
  {
    if i < |rs| {
      var shorter := rs[..|rs| - 1];
      AllPrefixesGrow(shorter, i);
      assert shorter[..i] == rs[..i];
    } else {
      assert rs[..i] == rs;
    }
  }

  lemma PrefixesStep(rs: seq<Record>, i: nat)
    requires i < |rs|
    ensures AllPrefixes(rs[..i + 1]) == AllPrefixes(rs[..i]) + Prefixes(rs[i].name)
  {
    assert rs[..i + 1][..i] == rs[..i];
  }

  /** A path refused in record `i` makes the whole list unacceptable. */
  lemma RefusedPrefix(rs: seq<Record>, i: nat, count: nat, c: Casing)
    requires i < |rs| && count <= |Prefixes(rs[i].name)|
    requires !AliasFree(AllPrefixes(rs[..i]) + Prefixes(rs[i].name)[..count], c)
    ensures !Acceptable(rs, c)
  {
    AllPrefixesGrow(rs, i + 1);
    PrefixesStep(rs, i);
    var part := AllPrefixes(rs[..i]) + Prefixes(rs[i].name)[..count];
    assert part <= AllPrefixes(rs[..i]) + Prefixes(rs[i].name);
    if AliasFree(AllPrefixes(rs), c) {
      AliasFreePrefix(part, AllPrefixes(rs), c);
    }
  }

  lemma ExtendBy(seen: seq<string>, paths: seq<string>, k: nat)
    requires k < |paths|
    ensures seen + paths[..k + 1] == seen + paths[..k] + [paths[k]]
  {
  }

  lemma KnowsOneMore(prefixes: map<string, string>, seen: seq<string>, path: string, c: Casing)
    requires Knows(prefixes, seen, c) && (c.fold(path) in prefixes ==> prefixes[c.fold(path)] == path)
    ensures Knows(prefixes[c.fold(path) := path], seen + [path], c)
  {
    assert forall s :: s in seen ==> s in seen + [path];
    assert path in seen + [path];
  }

  /** The inner loop: the paths of one name enter the dictionary unless one collides. */
  method AddPrefixes(prefixes: map<string, string>, ghost seen: seq<string>, paths: seq<string>, c: Casing)
    returns (ok: bool, prefixes': map<string, string>, ghost count: nat)
    requires Knows(prefixes, seen, c)
    ensures ok ==> Knows(prefixes', seen + paths, c)
    ensures !ok ==> count <= |paths| && !AliasFree(seen + paths[..count], c)
  {
    prefixes', count := prefixes, 0;
    ghost var known := seen;
    assert seen + paths[..0] == seen;
    for k := 0 to |paths|
      invariant known == seen + paths[..k] && Knows(prefixes', known, c)
    {
      ExtendBy(seen, paths, k);
      var canonical := c.fold(paths[k]);
      if canonical in prefixes' && prefixes'[canonical] != paths[k] {
        CollisionIsAlias(prefixes', known, paths[k], c);
        count := k + 1;
        return false, prefixes', count;
      }
      KnowsOneMore(prefixes', known, paths[k], c);
      prefixes' := prefixes'[canonical := paths[k]];
      known := known + [paths[k]];
    }
    assert paths[..|paths|] == paths;
    ok := true;
  }

  function EntryOf(r: Record): (res: Entry) { Entry(r.name, r.mode, r.oid) }

  predicate EntriesOf(entries: seq<Entry>, rs: seq<Record>) {
    |entries| == |rs| && forall i :: 0 <= i < |rs| ==> entries[i] == EntryOf(rs[i])
  }

  /** The records so far are acceptable, and the list and the dictionary hold them. */
  ghost predicate Taken(entries: seq<Entry>, prefixes: map<string, string>, rs: seq<Record>, c: Casing) {
    EntriesOf(entries, rs) && AllAdmitted(rs, c) && DistinctNames(rs) && Knows(prefixes, AllPrefixes(rs), c)
  }

  lemma TakeOneMore(rs: seq<Record>, i: nat)
    requires i < |rs|
    ensures rs[..i + 1] == rs[..i] + [rs[i]]
  {
  }

  lemma NamesStay(entries: seq<Entry>, rs: seq<Record>, r: Record)
    requires EntriesOf(entries, rs) && DistinctNames(rs) && forall k :: 0 <= k < |entries| ==> entries[k].name != r.name
    ensures DistinctNames(rs + [r])
  {
    assert forall k :: 0 <= k < |rs| ==> entries[k].name == rs[k].name;
  }

  lemma TakenOneMore(entries: seq<Entry>, prefixes: map<string, string>, added: map<string, string>, rs: seq<Record>,
      i: nat, c: Casing)
    requires i < |rs| && Taken(entries, prefixes, rs[..i], c) && Admit(rs[i], c).Ok?
    requires Knows(added, AllPrefixes(rs[..i]) + Prefixes(rs[i].name), c)
    requires forall k :: 0 <= k < |entries| ==> entries[k].name != rs[i].name
    ensures Taken(entries + [EntryOf(rs[i])], added, rs[..i + 1], c)
  {
    PrefixesStep(rs, i);
    TakeOneMore(rs, i);
    assert EntriesOf(entries + [EntryOf(rs[i])], rs[..i] + [rs[i]]);
    NamesStay(entries, rs[..i], rs[i]);
  }

  lemma RepeatedName(entries: seq<Entry>, rs: seq<Record>, i: nat)
    requires i < |rs| && EntriesOf(entries, rs[..i]) && exists k :: 0 <= k < |entries| && entries[k].name == rs[i].name
    ensures !DistinctNames(rs)
  {
    var k :| 0 <= k < |entries| && entries[k].name == rs[i].name;
    assert rs[..i][k] == rs[k];
  }

  /** The filter accepts exactly the lists of admissible, distinct names without case aliases, and keeps their order. */
  method Entries(rs: seq<Record>, c: Casing) returns (r: Result<seq<Entry>, Error>)
    ensures r.Ok? <==> Acceptable(rs, c)
    ensures r.Ok? ==> EntriesOf(r.value, rs)
    ensures r.Ok? ==>
              forall i :: 0 <= i < |rs| ==>
                r.value[i].name == rs[i].name && r.value[i].mode == rs[i].mode && r.value[i].oid == rs[i].oid
  {
    var entries: seq<Entry>, prefixes: map<string, string> := [], map[];
    for i := 0 to |rs|
      invariant Taken(entries, prefixes, rs[..i], c)
    {
      var parts := Admit(rs[i], c);
      if parts.Err? {
        return Err(parts.error);
      }
      var ok, added, count := AddPrefixes(prefixes, AllPrefixes(rs[..i]), Prefixes(rs[i].name), c);
      if !ok {
        RefusedPrefix(rs, i, count, c);
        return Err(CaseCollision);
      }
      if exists k :: 0 <= k < |entries| && entries[k].name == rs[i].name {
        RepeatedName(entries, rs, i);
        return Err(Duplicate);
      }
      TakenOneMore(entries, prefixes, added, rs, i, c);
      prefixes := added;
      entries := entries + [EntryOf(rs[i])];
    }
    assert rs[..|rs|] == rs;
    KnownIsAliasFree(prefixes, AllPrefixes(rs), c);
    r := Ok(entries);
  }

  lemma {:induction false} PathsOfRecord(rs: seq<Record>, i: nat, k: nat)
    requires i < |rs| && k < |Prefixes(rs[i].name)|
    ensures Prefixes(rs[i].name)[k] in AllPrefixes(rs)
  {
    if i == |rs| - 1 {
    } else {
      PathsOfRecord(rs[..|rs| - 1], i, k);
    }
  }

  ghost predicate NoSharedAlias(p: seq<string>, q: seq<string>, c: Casing) {
    forall k, l :: 0 <= k < |p| && 0 <= l < |q| && c.fold(p[k]) == c.fold(q[l]) ==> p[k] == q[l]
  }

  lemma NameIsLastPath(r: Record, c: Casing)
    requires Admit(r, c).Ok?
    ensures Prefixes(r.name) != [] && Prefixes(r.name)[|Prefixes(r.name)| - 1] == r.name
  {
    var parts := Components(r.name);
    assert parts[..|parts|] == parts;
  }

  /** In an accepted list no file or directory path of one entry is a case variant of a path of another, so
      no two entries name the same Windows file. */
  lemma AcceptedNeverAlias(rs: seq<Record>, c: Casing, i: nat, j: nat)
    requires Acceptable(rs, c) && i < j < |rs|
    ensures c.fold(rs[i].name) != c.fold(rs[j].name)
    ensures NoSharedAlias(Prefixes(rs[i].name), Prefixes(rs[j].name), c)
  {
    var p, q := Prefixes(rs[i].name), Prefixes(rs[j].name);
    forall k, l | 0 <= k < |p| && 0 <= l < |q| && c.fold(p[k]) == c.fold(q[l]) ensures p[k] == q[l] {
      PathsOfRecord(rs, i, k);
      PathsOfRecord(rs, j, l);
    }
    NameIsLastPath(rs[i], c);
    NameIsLastPath(rs[j], c);
  }
}
