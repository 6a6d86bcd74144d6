/** `pe_imports`: the DLL names of a PE32+ import directory, read from arbitrary bytes. */
module PeImports {
  import opened Prelude

  datatype Error =
    | Truncated | NoDosHeader | NoPeSignature | NotAmd64 | NotPe32Plus | NoImportDirectory | NoImports
    | UnbackedRva | RvaOutside | UnterminatedName | NotAscii | InvalidName | UnterminatedList

  /** Little-endian reads. Their preconditions are the proof that no read leaves the buffer. */
  function U16(data: seq<byte>, o: int): (v: nat)
    requires 0 <= o && o + 2 <= |data|
    ensures v < 0x1_0000
  {
    data[o] as int + data[o + 1] as int * 0x100
  }

  function U32(data: seq<byte>, o: int): (v: nat)
    requires 0 <= o && o + 4 <= |data|
    ensures v < 0x1_0000_0000
  {
    U16(data, o) + U16(data, o + 2) * 0x1_0000
  }

  predicate Fits(data: seq<byte>, offset: int, count: int) { 0 <= offset && offset + count <= |data| }

  /** What the rest of the reader needs from the headers. */
  datatype Header = Header(importRva: nat, importSize: nat, headersSize: nat, sectionTable: nat, sections: nat)

  function ParseHeader(data: seq<byte>): (r: Result<Header, Error>)
    ensures r.Ok? ==> Fits(data, r.value.sectionTable, r.value.sections * 40)
  {
    if !Fits(data, 0, 64) then Err(Truncated)
    else if data[0] != 0x4D || data[1] != 0x5A then Err(NoDosHeader)
    else
      var pe := U32(data, 0x3C);
      if !Fits(data, pe, 24) then Err(Truncated)
      else if !(data[pe] == 0x50 && data[pe + 1] == 0x45 && data[pe + 2] == 0 && data[pe + 3] == 0)
        then Err(NoPeSignature)
      else
        var machine, sections, size, optional := U16(data, pe + 4), U16(data, pe + 6), U16(data, pe + 20), pe + 24;
        if !Fits(data, optional, size) then Err(Truncated)
        else if machine != 0x8664 || size < 128 then Err(NotAmd64)
        else if U16(data, optional) != 0x20B then Err(NotPe32Plus)
        else if U32(data, optional + 108) < 2 then Err(NoImportDirectory)
        else if !Fits(data, optional + size, sections * 40) then Err(Truncated)
        else
          var importRva, importSize := U32(data, optional + 120), U32(data, optional + 124);
          if importRva == 0 || importSize < 20 then Err(NoImports)
          else Ok(Header(importRva, importSize, U32(data, optional + 60), optional + size, sections))
  }

  datatype Section = Section(virtualSize: nat, virtualAddress: nat, rawSize: nat, raw: nat)

  function SectionAt(data: seq<byte>, h: Header, index: nat): (s: Section)
    requires index < h.sections && Fits(data, h.sectionTable, h.sections * 40)
  {
    var s := h.sectionTable + index * 40;
    Section(U32(data, s + 8), U32(data, s + 12), U32(data, s + 16), U32(data, s + 20))
  }

  predicate Contains(s: Section, rva: nat)
  {
    s.virtualAddress <= rva < s.virtualAddress + Max(s.virtualSize, s.rawSize)
  }

  /** The file offset of an address within a section; its tail may exist in memory only. */
  function Backed(data: seq<byte>, s: Section, rva: nat): (r: Result<nat, Error>)
    requires Contains(s, rva)
    ensures r.Ok? ==> r.value < |data|
  {
    if rva - s.virtualAddress >= s.rawSize then Err(UnbackedRva)
    else if !Fits(data, s.raw + rva - s.virtualAddress, 1) then Err(Truncated)
    else Ok(s.raw + rva - s.virtualAddress)
  }

  /** The file offset of a relative virtual address, looked up from section `index` on. */
  function SectionOffset(data: seq<byte>, h: Header, rva: nat, index: nat): (r: Result<nat, Error>)
    requires index <= h.sections && Fits(data, h.sectionTable, h.sections * 40)
    ensures r.Ok? ==> r.value < |data|
    decreases h.sections - index
  {
    if index == h.sections then Err(RvaOutside)
    else if Contains(SectionAt(data, h, index), rva) then Backed(data, SectionAt(data, h, index), rva)
    else SectionOffset(data, h, rva, index + 1)
  }

  function RvaOffset(data: seq<byte>, h: Header, rva: nat): (r: Result<nat, Error>)
    requires Fits(data, h.sectionTable, h.sections * 40)
    ensures r.Ok? ==> r.value < |data|
  {
    if rva < h.headersSize then if Fits(data, rva, 1) then Ok(rva) else Err(Truncated)
      else SectionOffset(data, h, rva, 0)
  }

  /** No section before this one contains the address. */
  ghost predicate NoneBefore(data: seq<byte>, h: Header, rva: nat, index: nat)
    requires index <= h.sections && Fits(data, h.sectionTable, h.sections * 40)
  {
    forall i :: 0 <= i < index ==> !Contains(SectionAt(data, h, i), rva)
  }

  ghost predicate FirstWith(data: seq<byte>, h: Header, rva: nat, index: nat)
    requires Fits(data, h.sectionTable, h.sections * 40)
  {
    index < h.sections && Contains(SectionAt(data, h, index), rva) && NoneBefore(data, h, rva, index)
  }

  /** An address in the headers is its own offset. Any other is resolved by the first section that contains
      it, whether or not that one backs it, and is an error without one. */
  ghost predicate Resolves(data: seq<byte>, h: Header, rva: nat, r: Result<nat, Error>)
    requires Fits(data, h.sectionTable, h.sections * 40)
  {
    if rva < h.headersSize then r == if rva < |data| then Ok(rva) else Err(Truncated)
    else if NoneBefore(data, h, rva, h.sections) then r == Err(RvaOutside)
    else exists i :: FirstWith(data, h, rva, i) && r == Backed(data, SectionAt(data, h, i), rva)
  }

  lemma {:induction false} SectionOffsetResolves(data: seq<byte>, h: Header, rva: nat, index: nat)
    requires index <= h.sections && Fits(data, h.sectionTable, h.sections * 40) && rva >= h.headersSize
    requires NoneBefore(data, h, rva, index)
    ensures Resolves(data, h, rva, SectionOffset(data, h, rva, index))
    decreases h.sections - index
  {
    if index == h.sections {
    } else if Contains(SectionAt(data, h, index), rva) {
      assert FirstWith(data, h, rva, index);
    } else {
      SectionOffsetResolves(data, h, rva, index + 1);
    }
  }

  /** The search gives the one result that the section table says. */
  lemma RvaOffsetIff(data: seq<byte>, h: Header, rva: nat, r: Result<nat, Error>)
    requires Fits(data, h.sectionTable, h.sections * 40)
    ensures r == RvaOffset(data, h, rva) <==> Resolves(data, h, rva, r)
  {
    if rva >= h.headersSize {
      SectionOffsetResolves(data, h, rva, 0);
      forall i, j | FirstWith(data, h, rva, i) && FirstWith(data, h, rva, j) ensures i == j {
        assert !(i < j) && !(j < i);
      }
    }
  }

  // ---- Names --------------------------------------------------------------

  predicate NameChar(c: char) { 'a' <= c <= 'z' || '0' <= c <= '9' || c in "_.+-" }

  /** `[a-z0-9_.+-]+\.(dll|drv)` */
  predicate ValidName(s: string) {
    var n := |s|;
    n >= 5 && (s[n - 4..] == ".dll" || s[n - 4..] == ".drv") && forall k :: 0 <= k < n - 4 ==> NameChar(s[k])
  }

  function LowerByte(b: byte): (r: char)
    requires b < 128
  {
    if 65 <= b <= 90 then (b + 32) as char else b as char
  }

  function Ascii(bytes: seq<byte>): (s: string)
    requires forall k :: 0 <= k < |bytes| ==> bytes[k] < 128
    ensures |s| == |bytes| && forall k :: 0 <= k < |s| ==> s[k] == LowerByte(bytes[k])
  {
    seq(|bytes|, k requires 0 <= k < |bytes| => LowerByte(bytes[k]))
  }

  /** The first zero byte in [from, limit), or none. */
  function FindZero(data: seq<byte>, from: nat, limit: nat): (r: Option<nat>)
    requires from <= limit <= |data|
    ensures r.Some? ==> from <= r.value < limit && data[r.value] == 0 && forall k :: from <= k < r.value ==>
            data[k] != 0
    ensures r.None? ==> forall k :: from <= k < limit ==> data[k] != 0
    decreases limit - from
  {
    if from == limit then None else if data[from] == 0 then Some(from) else FindZero(data, from + 1, limit)
  }

  function NameAt(data: seq<byte>, offset: nat): (r: Result<string, Error>)
    requires offset < |data|
  {
    var end := FindZero(data, offset, Min(offset + 512, |data|));
    if end.None? then Err(UnterminatedName)
    else
      var bytes := data[offset..end.value];
      if exists k :: 0 <= k < |bytes| && bytes[k] >= 128 then Err(NotAscii)
      else if !ValidName(Ascii(bytes)) then Err(InvalidName)
      else Ok(Ascii(bytes))
  }

  // ---- Descriptors --------------------------------------------------------

  predicate AllZero(data: seq<byte>, offset: nat)
    requires Fits(data, offset, 20)
  {
    forall k :: offset <= k < offset + 20 ==> data[k] == 0
  }

  function NamedBy(data: seq<byte>, h: Header, rva: nat): (r: Result<Option<string>, Error>)
    requires Fits(data, h.sectionTable, h.sections * 40)
  {
    var name := RvaOffset(data, h, rva);
    if name.Err? then Err(name.error)
    else match NameAt(data, name.value) case Ok(s) => Ok(Some(s)) case Err(e) => Err(e)
  }

  function DescriptorIn(data: seq<byte>, h: Header, offset: nat): (r: Result<Option<string>, Error>)
    requires Fits(data, h.sectionTable, h.sections * 40)
  {
    if !Fits(data, offset, 20) then Err(Truncated)
    else if AllZero(data, offset) then Ok(None)
    else NamedBy(data, h, U32(data, offset + 12))
  }

  /** Descriptor `index` of the import directory: its DLL name, none for the terminator, or an error. */
  function DescriptorAt(data: seq<byte>, h: Header, index: nat): (r: Result<Option<string>, Error>)
    requires Fits(data, h.sectionTable, h.sections * 40)
  {
    var offset := RvaOffset(data, h, h.importRva + index * 20);
    if offset.Err? then Err(offset.error) else DescriptorIn(data, h, offset.value)
  }

  function MaxDescriptors(h: Header): (r: nat) { Min(h.importSize / 20, 256) }

  /** The bytes list these imports: one named descriptor each, in order, then the all-zero one, all of
      them within the directory and within 256 descriptors. */
  ghost predicate Lists(data: seq<byte>, names: seq<string>) {
    var h := ParseHeader(data);
    h.Ok? && |names| < MaxDescriptors(h.value) && DescriptorAt(data, h.value, |names|) == Ok(None) &&
    forall i :: 0 <= i < |names| ==> DescriptorAt(data, h.value, i) == Ok(Some(names[i]))
  }

  /** Bytes list at most one sequence of imports. */
  lemma ListsUnique(data: seq<byte>, a: seq<string>, b: seq<string>)
    requires Lists(data, a) && Lists(data, b)
    ensures a == b
  {
    var h := ParseHeader(data).value;
    if |a| == |b| {
      forall i | 0 <= i < |a| ensures a[i] == b[i] {
        assert DescriptorAt(data, h, i) == Ok(Some(a[i])) && DescriptorAt(data, h, i) == Ok(Some(b[i]));
      }
    }
  }

  /** The section loop of `rva_offset`. */
  method RvaToOffset(data: seq<byte>, h: Header, rva: nat) returns (r: Result<nat, Error>)
    requires Fits(data, h.sectionTable, h.sections * 40)
    ensures Resolves(data, h, rva, r)
  {
    if rva < h.headersSize {
      if !Fits(data, rva, 1) {
        return Err(Truncated);
      }
      return Ok(rva);
    }
    var index := 0;
    while index < h.sections
      invariant 0 <= index <= h.sections && NoneBefore(data, h, rva, index)
    {
      var section := SectionAt(data, h, index);
      if Contains(section, rva) {
        assert FirstWith(data, h, rva, index);
        var relative := rva - section.virtualAddress;
        if relative >= section.rawSize {
          return Err(UnbackedRva);
        }
        if !Fits(data, section.raw + relative, 1) {
          return Err(Truncated);
        }
        return Ok(section.raw + relative);
      }
      index := index + 1;
    }
    return Err(RvaOutside);
  }

  /** The search gives the value of the specification. */
  method OffsetOf(data: seq<byte>, h: Header, rva: nat) returns (r: Result<nat, Error>)
    requires Fits(data, h.sectionTable, h.sections * 40)
    ensures r == RvaOffset(data, h, rva)
  {
    r := RvaToOffset(data, h, rva);
    RvaOffsetIff(data, h, rva, r);
  }

  /** The descriptors read so far carry these names. */
  ghost predicate NamedSoFar(data: seq<byte>, h: Header, imports: seq<string>)
    requires Fits(data, h.sectionTable, h.sections * 40)
  {
    forall i :: 0 <= i < |imports| ==> DescriptorAt(data, h, i) == Ok(Some(imports[i]))
  }

  predicate AllValid(names: seq<string>) { forall name :: name in names ==> ValidName(name) && |name| < 512 }

  lemma OneMoreName(data: seq<byte>, h: Header, imports: seq<string>, name: string)
    requires Fits(data, h.sectionTable, h.sections * 40)
    requires NamedSoFar(data, h, imports) && AllValid(imports)
    requires DescriptorAt(data, h, |imports|) == Ok(Some(name)) && ValidName(name) && |name| < 512
    ensures NamedSoFar(data, h, imports + [name]) && AllValid(imports + [name])
  {
  }

  ghost predicate ListsNothing(data: seq<byte>) { forall names :: !Lists(data, names) }

  lemma FullDirectory(data: seq<byte>, h: Header, imports: seq<string>)
    requires ParseHeader(data) == Ok(h) && NamedSoFar(data, h, imports) && |imports| >= MaxDescriptors(h)
    ensures ListsNothing(data)
  {
  }

  method ReadName(data: seq<byte>, h: Header, rva: nat) returns (r: Result<Option<string>, Error>)
    requires Fits(data, h.sectionTable, h.sections * 40)
    ensures r == NamedBy(data, h, rva)
    ensures r.Ok? && r.value.Some? ==> ValidName(r.value.value) && |r.value.value| < 512
  {
    var nameOffset := OffsetOf(data, h, rva);
    if nameOffset.Err? {
      return Err(nameOffset.error);
    }
    var name := NameAt(data, nameOffset.value);
    if name.Err? {
      return Err(name.error);
    }
    return Ok(Some(name.value));
  }

  /** The five fields at an offset: the terminator, or the name the fourth points to. */
  method ReadFields(data: seq<byte>, h: Header, offset: nat) returns (r: Result<Option<string>, Error>)
    requires Fits(data, h.sectionTable, h.sections * 40)
    ensures r == DescriptorIn(data, h, offset)
    ensures r.Ok? && r.value.Some? ==> ValidName(r.value.value) && |r.value.value| < 512
  {
    if !Fits(data, offset, 20) {
      return Err(Truncated);
    }
    if AllZero(data, offset) {
      return Ok(None);
    }
    r := ReadName(data, h, U32(data, offset + 12));
  }

  method ReadDescriptor(data: seq<byte>, h: Header, index: nat) returns (r: Result<Option<string>, Error>)
    requires Fits(data, h.sectionTable, h.sections * 40)
    ensures r == DescriptorAt(data, h, index)
    ensures r.Ok? && r.value.Some? ==> ValidName(r.value.value) && |r.value.value| < 512
  {
    var rva := h.importRva + index * 20;
    var descriptor := OffsetOf(data, h, rva);
    if descriptor.Err? {
      return Err(descriptor.error);
    }
    r := ReadFields(data, h, descriptor.value);
  }

  /** A failing descriptor, with named ones before it, rules out every list. */
  lemma NotListed(data: seq<byte>, h: Header, imports: seq<string>)
    requires ParseHeader(data) == Ok(h) && NamedSoFar(data, h, imports) && DescriptorAt(data, h, |imports|).Err?
    ensures ListsNothing(data)
  {
  }

  /** Total on arbitrary bytes: it succeeds exactly on bytes that list imports, and returns that list. */
  method ReadImports(data: seq<byte>) returns (r: Result<seq<string>, Error>)
    ensures r.Ok? ==> Lists(data, r.value) && AllValid(r.value) && |r.value| < 256
    ensures r.Err? ==> ListsNothing(data)
  {
    var header := ParseHeader(data);
    if header.Err? {
      return Err(header.error);
    }
    var h := header.value;
    var imports: seq<string> := [];
    var index := 0;
    while index < MaxDescriptors(h)
      invariant 0 <= index == |imports| <= MaxDescriptors(h)
      invariant NamedSoFar(data, h, imports) && AllValid(imports)
    {
      var found := ReadDescriptor(data, h, index);
      match found {
        case Err(e) =>
          NotListed(data, h, imports);
          return Err(e);
        case Ok(None) => return Ok(imports);
        case Ok(Some(name)) =>
          OneMoreName(data, h, imports, name);
          imports := imports + [name];
          index := index + 1;
      }
    }
    FullDirectory(data, h, imports);
    return Err(UnterminatedList);
  }
}
