/** Which tracked files a snapshot admits, said about the characters of their names. */
module TreeLaws {
  import opened Prelude
  import opened TreeEntries

  // ---- Paths --------------------------------------------------------------

  /** The parts between the slashes, empty ones included. */
  function Split(name: string): (parts: seq<string>)
    ensures parts != []
    decreases |name|
  {
    var first := Until(name, '/');
    if |first| == |name| then [first] else [first] + Split(name[|first| + 1..])
  }

  /** The parts with a slash between any two. */
  function Slashed(parts: seq<string>): (name: string)
    requires parts != []
  {
    if |parts| == 1 then parts[0] else Slashed(parts[..|parts| - 1]) + "/" + parts[|parts| - 1]
  }

  lemma {:induction false} SlashedHead(first: string, parts: seq<string>)
    requires parts != []
    ensures Slashed([first] + parts) == first + "/" + Slashed(parts)
  {
    var all, n := [first] + parts, |parts|;
    if n == 1 {
      assert all[..1] == [first];
    } else {
      assert all[..n] == [first] + parts[..n - 1];
      SlashedHead(first, parts[..n - 1]);
    }
  }

  /** A name is its parts with slashes between them, and no part holds one. */
  lemma {:induction false} SplitIs(name: string)
    ensures Slashed(Split(name)) == name && forall k :: 0 <= k < |Split(name)| ==> '/' !in Split(name)[k]
    decreases |name|
  {
    var first := Until(name, '/');
    if |first| == |name| {
      assert first == name;
    } else {
      var rest := name[|first| + 1..];
      SplitIs(rest);
      SlashedHead(first, Split(rest));
      assert name == first + "/" + rest;
    }
  }

  lemma {:induction false} JoinedIsSlashed(parts: seq<string>)
    requires parts != []
    ensures Joined(parts) == Slashed(parts)
  {
    if |parts| == 1 {
    } else {
      JoinedIsSlashed(parts[1..]);
      SlashedHead(parts[0], parts[1..]);
      assert parts == [parts[0]] + parts[1..];
    }
  }

  predicate Dropped(part: string) { part == "" || part == "." }

  /** No part is empty or `.`. */
  predicate Plain(parts: seq<string>) { forall k :: 0 <= k < |parts| ==> !Dropped(parts[k]) }

  lemma {:induction false} PlainComponents(name: string)
    requires Plain(Split(name))
    ensures Components(name) == Split(name)
    decreases |name|
  {
    var first := Until(name, '/');
    assert Split(name)[0] == first;
    if |first| == |name| {
    } else {
      var rest := name[|first| + 1..];
      assert Split(name)[1..] == Split(rest);
      PlainComponents(rest);
    }
  }

  lemma {:induction false} ComponentsLength(name: string)
    ensures |Components(name)| <= |Split(name)|
    ensures |Components(name)| == |Split(name)| ==> Plain(Split(name))
    decreases |name|
  {
    var first := Until(name, '/');
    if name == "" {
    } else if |first| == |name| {
    } else {
      var rest := name[|first| + 1..];
      ComponentsLength(rest);
      if |Components(name)| == |Split(name)| {
        forall k | 0 <= k < |Split(name)| ensures !Dropped(Split(name)[k]) {
          if k > 0 {
            assert Split(name)[k] == Split(rest)[k - 1];
          }
        }
      }
    }
  }

  predicate SlashFree(parts: seq<string>) { forall k :: 0 <= k < |parts| ==> '/' !in parts[k] }

  lemma {:induction false} ComponentsSlashFree(name: string)
    ensures SlashFree(Components(name))
    decreases |name|
  {
    var first := Until(name, '/');
    if name == "" || |first| == |name| {
    } else {
      ComponentsSlashFree(name[|first| + 1..]);
    }
  }

  lemma UntilIs(s: string, t: string, c: char)
    requires t <= s && c !in t && (t == s || s[|t|] == c)
    ensures Until(s, c) == t
  {
    var u := Until(s, c);
    assert forall k :: 0 <= k < |u| ==> u[k] == s[k] && u[k] != c;
    assert forall k :: 0 <= k < |t| ==> t[k] == s[k] && t[k] != c;
  }

  lemma UntilSlash(first: string, rest: string)
    requires '/' !in first
    ensures Until(first + "/" + rest, '/') == first && (first + "/" + rest)[|first| + 1..] == rest
  {
    var s := first + "/" + rest;
    assert s[|first|] == '/';
    UntilIs(s, first, '/');
  }

  lemma {:induction false} SplitSlashed(parts: seq<string>)
    requires parts != [] && SlashFree(parts)
    ensures Split(Joined(parts)) == parts
  {
    if |parts| == 1 {
      UntilIs(parts[0], parts[0], '/');
    } else {
      SplitSlashed(parts[1..]);
      UntilSlash(parts[0], Joined(parts[1..]));
      assert parts == [parts[0]] + parts[1..];
    }
  }

  /** A name is canonical exactly when no part between its slashes is empty or `.`. */
  lemma CanonicalIff(name: string)
    requires name != ""
    ensures Components(name) != [] && Joined(Components(name)) == name <==> Plain(Split(name))
    ensures Plain(Split(name)) ==> Components(name) == Split(name)
  {
    if Plain(Split(name)) {
      PlainComponents(name);
      SplitIs(name);
      JoinedIsSlashed(Split(name));
    }
    if Components(name) != [] && Joined(Components(name)) == name {
      ComponentsSlashFree(name);
      SplitSlashed(Components(name));
      ComponentsLength(name);
    }
  }

  // ---- Admission ----------------------------------------------------------

  const DEVICES: set<string> := {
    "AUX", "CON", "NUL", "PRN", "COM1", "COM2", "COM3", "COM4", "COM5", "COM6", "COM7", "COM8", "COM9",
    "LPT1", "LPT2", "LPT3", "LPT4", "LPT5", "LPT6", "LPT7", "LPT8", "LPT9" }

  /** A part that Windows would not take for a device, strip, or refuse. */
  predicate Usable(part: string, c: Casing) {
    && part !in {"", ".", ".."} && part[|part| - 1] !in {' ', '.'}
    && (forall k :: 0 <= k < |part| ==> part[k] as int >= 0x20 && part[k] !in "<>\"|?*")
    && c.fold(part) != "$null" && c.upper(Until(part, '.')) !in DEVICES
  }

  lemma StripEndIff(part: string)
    ensures StripEnd(part) == part <==> part == "" || part[|part| - 1] !in {' ', '.'}
  {
  }

  lemma PortIs(stem: string, port: string)
    requires |stem| == 4 && |port| == 4
    ensures stem == port <==> stem[..3] == port[..3] && stem[3] == port[3]
  {
    assert stem == stem[..3] + [stem[3]] && port == port[..3] + [port[3]];
  }

  lemma PortIff(stem: string, name: string, ports: seq<string>)
    requires |stem| == 4 && |name| == 3 && |ports| == 9
    requires forall k :: 0 <= k < 9 ==> ports[k] == name + [("123456789")[k]]
    ensures stem in ports <==> stem[..3] == name && '1' <= stem[3] <= '9'
  {
    forall k | 0 <= k < 9 ensures stem == ports[k] <==> stem[..3] == name && stem[3] as int == '1' as int + k {
      assert ports[k][..3] == name && ports[k][3] as int == '1' as int + k;
      PortIs(stem, ports[k]);
    }
    if stem[..3] == name && '1' <= stem[3] <= '9' {
      assert stem == ports[stem[3] as int - '1' as int];
    }
  }

  lemma DeviceIff(stem: string)
    ensures DeviceName(stem) <==> stem in DEVICES
  {
    var coms := ["COM1", "COM2", "COM3", "COM4", "COM5", "COM6", "COM7", "COM8", "COM9"];
    var lpts := ["LPT1", "LPT2", "LPT3", "LPT4", "LPT5", "LPT6", "LPT7", "LPT8", "LPT9"];
    if |stem| == 4 {
      PortIff(stem, "COM", coms);
      PortIff(stem, "LPT", lpts);
    }
    assert stem in DEVICES <==> stem in {"AUX", "CON", "NUL", "PRN"} || stem in coms || stem in lpts;
  }

  lemma UsableIff(part: string, c: Casing)
    requires part != "" && part != "."
    ensures SafePart(part, c) && part != ".." <==> Usable(part, c)
  {
    StripEndIff(part);
    DeviceIff(c.upper(Until(part, '.')));
    forall k | 0 <= k < |part| ensures part[k] in "<>\"|?*" <==> part[k] in {'<', '>', '"', '|', '?', '*'} {
      assert "<>\"|?*" == ['<', '>', '"', '|', '?', '*'];
    }
  }

  predicate HexDigit(c: char) { c in "0123456789abcdef" }

  lemma ObjectIdIff(oid: string)
    ensures ObjectId(oid) <==> |oid| == 40 && forall k :: 0 <= k < 40 ==> HexDigit(oid[k])
  {
    forall c: char ensures HexDigit(c) <==> 'a' <= c <= 'f' || '0' <= c <= '9' {
      assert "0123456789abcdef" == "0123456789" + "abcdef";
      if '0' <= c <= '9' {
        assert "0123456789abcdef"[c as int - '0' as int] == c;
      } else if 'a' <= c <= 'f' {
        assert "0123456789abcdef"[10 + (c as int - 'a' as int)] == c;
      }
    }
  }

  /** Only usable parts between its slashes, in particular no `..`, and neither a backslash nor a colon. */
  predicate UsableName(name: string, c: Casing) {
    name != "" && '\\' !in name && ':' !in name && forall k :: 0 <= k < |Split(name)| ==> Usable(Split(name)[k], c)
  }

  predicate NoParent(parts: seq<string>) { forall k :: 0 <= k < |parts| ==> parts[k] != ".." }

  lemma PartsIff(parts: seq<string>, c: Casing)
    requires Plain(parts)
    ensures (forall k :: 0 <= k < |parts| ==> Usable(parts[k], c)) <==>
            NoParent(parts) && forall k :: 0 <= k < |parts| ==> SafePart(parts[k], c)
  {
    forall k | 0 <= k < |parts| ensures SafePart(parts[k], c) && parts[k] != ".." <==> Usable(parts[k], c) {
      UsableIff(parts[k], c);
    }
  }

  lemma FirstPart(name: string)
    requires name != "" && Split(name)[0] != ""
    ensures name[0] != '/'
  {
    assert Split(name)[0] == Until(name, '/');
  }

  lemma NameIff(name: string, c: Casing)
    ensures SafeName(name, c).Ok? && Joined(Components(name)) == name <==> UsableName(name, c)
    ensures UsableName(name, c) ==> SafeName(name, c) == Ok(Split(name))
  {
    var parts := Split(name);
    if name != "" {
      CanonicalIff(name);
      assert UsableName(name, c) ==> Plain(parts);
      if Plain(parts) {
        FirstPart(name);
        PartsIff(parts, c);
        assert NoParent(parts) <==> ".." !in parts;
      }
    }
  }

  /** A canonical name is unsafe for a parent part, a backslash or a colon; any other that is refused is reserved. */
  lemma UnsafeIff(name: string, c: Casing)
    requires name != "" && Plain(Split(name))
    ensures SafeName(name, c) == Err(UnsafePath) <==> ".." in Split(name) || '\\' in name || ':' in name
    ensures SafeName(name, c).Err? && SafeName(name, c).error != UnsafePath ==> SafeName(name, c) == Err(ReservedPath)
  {
    CanonicalIff(name);
    FirstPart(name);
  }

  /** A record is admitted exactly as a regular blob with a 40-digit identity and a usable name. */
  lemma AdmittedIff(r: Record, c: Casing)
    ensures Admit(r, c).Ok? <==>
            && r.mode in {"100644", "100755"} && r.kind == "blob"
            && |r.oid| == 40 && (forall k :: 0 <= k < 40 ==> HexDigit(r.oid[k])) && UsableName(r.name, c)
    ensures Admit(r, c).Ok? ==> Admit(r, c).value == Split(r.name)
  {
    ObjectIdIff(r.oid);
    NameIff(r.name, c);
  }

  lemma {:induction false} SlashedPrefix(parts: seq<string>, k: nat)
    requires 0 < k <= |parts|
    ensures var p, s := Slashed(parts[..k]), Slashed(parts); p <= s && (p == s || s[|p|] == '/')
  {
    if k == |parts| {
      assert parts[..k] == parts;
    } else {
      var init := parts[..|parts| - 1];
      SlashedPrefix(init, k);
      assert init[..k] == parts[..k];
      assert Slashed(parts) == Slashed(init) + "/" + parts[|parts| - 1];
    }
  }

  /** Each path that is checked for aliases is the name up to a slash, or all of it. */
  lemma PrefixIs(name: string, k: nat)
    requires Plain(Split(name)) && name != "" && k < |Split(name)|
    ensures |Prefixes(name)| == |Split(name)|
    ensures k < |Prefixes(name)| && var p := Prefixes(name)[k];
            p == Slashed(Split(name)[..k + 1]) && p <= name && (p == name || name[|p|] == '/')
  {
    PlainComponents(name);
    var parts := Split(name);
    JoinedIsSlashed(parts[..k + 1]);
    SplitIs(name);
    SlashedPrefix(parts, k + 1);
  }
}
