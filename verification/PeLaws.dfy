/** The layout of a PE32+ image with imports, after the "PE Format" specification of Microsoft: which bytes the
    reader looks at, and in which byte order. */
module PeLaws {
  import opened Prelude
  import opened PeImports

  /** The number that bytes denote, the lowest first. */
  function Value(bytes: seq<byte>): (v: nat) { if bytes == [] then 0 else bytes[0] + 0x100 * Value(bytes[1..]) }

  /** `n` bytes of the image from an offset. */
  predicate Inside(data: seq<byte>, o: int, n: nat) { 0 <= o && o + n <= |data| }

  function Field(data: seq<byte>, o: int, n: nat): (v: nat)
    requires Inside(data, o, n)
  {
    Value(data[o..o + n])
  }

  lemma U16Is(data: seq<byte>, o: int)
    requires Inside(data, o, 2)
    ensures U16(data, o) == Field(data, o, 2)
  {
    assert data[o..o + 2] == [data[o], data[o + 1]] && [data[o], data[o + 1]][1..] == [data[o + 1]];
    assert Value([data[o + 1]]) == data[o + 1] + 0x100 * Value([]);
  }

  lemma ValueJoin(a: byte, b: byte, rest: seq<byte>)
    ensures Value([a, b] + rest) == a + 0x100 * b + 0x1_0000 * Value(rest)
  {
    assert ([a, b] + rest)[1..] == [b] + rest && ([b] + rest)[1..] == rest;
  }

  lemma U32Is(data: seq<byte>, o: int)
    requires Inside(data, o, 4)
    ensures U32(data, o) == Field(data, o, 4)
  {
    U16Is(data, o + 2);
    ValueJoin(data[o], data[o + 1], data[o + 2..o + 4]);
    assert data[o..o + 4] == [data[o], data[o + 1]] + data[o + 2..o + 4];
  }

  // ---- Headers ------------------------------------------------------------

  /** The DOS header and the place of the PE header. */
  predicate DosHeader(data: seq<byte>, pe: nat) {
    Inside(data, 0, 64) && data[0] == 0x4D && data[1] == 0x5A && pe == Field(data, 0x3C, 4)
  }

  /** The signature `PE\0\0`, the machine AMD64, the section count and the size of the optional header. */
  predicate FileHeader(data: seq<byte>, pe: nat, sections: nat, size: nat) {
    && Inside(data, pe, 24) && data[pe..pe + 4] == [0x50, 0x45, 0, 0] && Field(data, pe + 4, 2) == 0x8664
    && sections == Field(data, pe + 6, 2) && size == Field(data, pe + 20, 2)
  }

  /** The optional header of a PE32+ image with an import directory. */
  predicate OptionalHeader(data: seq<byte>, at: nat, size: nat, headersSize: nat, importRva: nat, importSize: nat) {
    && size >= 128 && Inside(data, at, size) && Field(data, at, 2) == 0x20B && Field(data, at + 108, 4) >= 2
    && headersSize == Field(data, at + 60, 4)
    && importRva == Field(data, at + 120, 4) > 0 && importSize == Field(data, at + 124, 4) >= 20
  }

  /** The image has these headers. */
  ghost predicate Describes(data: seq<byte>, h: Header) {
    exists pe: nat, size: nat ::
      && DosHeader(data, pe) && FileHeader(data, pe, h.sections, size)
      && OptionalHeader(data, pe + 24, size, h.headersSize, h.importRva, h.importSize)
      && h.sectionTable == pe + 24 + size && Inside(data, h.sectionTable, 40 * h.sections)
  }

  lemma SignatureIs(data: seq<byte>, pe: nat)
    requires Inside(data, pe, 4)
    ensures data[pe..pe + 4] == [0x50, 0x45, 0, 0] <==>
            data[pe] == 0x50 && data[pe + 1] == 0x45 && data[pe + 2] == 0 && data[pe + 3] == 0
  {
    var b := data[pe..pe + 4];
    assert b == [data[pe], data[pe + 1], data[pe + 2], data[pe + 3]];
  }

  lemma FileHeaderReads(data: seq<byte>, pe: nat)
    requires Inside(data, pe, 24)
    ensures U16(data, pe + 4) == Field(data, pe + 4, 2) && U16(data, pe + 6) == Field(data, pe + 6, 2) &&
            U16(data, pe + 20) == Field(data, pe + 20, 2)
  {
    U16Is(data, pe + 4);
    U16Is(data, pe + 6);
    U16Is(data, pe + 20);
  }

  lemma OptionalHeaderReads(data: seq<byte>, at: nat, size: nat)
    requires size >= 128 && Inside(data, at, size)
    ensures U16(data, at) == Field(data, at, 2) && U32(data, at + 108) == Field(data, at + 108, 4) &&
            U32(data, at + 60) == Field(data, at + 60, 4) && U32(data, at + 120) == Field(data, at + 120, 4) &&
            U32(data, at + 124) == Field(data, at + 124, 4)
  {
    U16Is(data, at);
    U32Is(data, at + 108);
    U32Is(data, at + 60);
    U32Is(data, at + 120);
    U32Is(data, at + 124);
  }

  lemma AcceptedDescribes(data: seq<byte>, h: Header)
    requires ParseHeader(data) == Ok(h)
    ensures Describes(data, h)
  {
    U32Is(data, 0x3C);
    var pe := Field(data, 0x3C, 4);
    SignatureIs(data, pe);
    FileHeaderReads(data, pe);
    var size := Field(data, pe + 20, 2);
    OptionalHeaderReads(data, pe + 24, size);
    assert DosHeader(data, pe) && FileHeader(data, pe, h.sections, size);
  }

  lemma DescribedAccepted(data: seq<byte>, h: Header, pe: nat, size: nat)
    requires DosHeader(data, pe) && FileHeader(data, pe, h.sections, size)
    requires OptionalHeader(data, pe + 24, size, h.headersSize, h.importRva, h.importSize)
    requires h.sectionTable == pe + 24 + size && Inside(data, h.sectionTable, 40 * h.sections)
    ensures ParseHeader(data) == Ok(h)
  {
    U32Is(data, 0x3C);
    SignatureIs(data, pe);
    FileHeaderReads(data, pe);
    OptionalHeaderReads(data, pe + 24, size);
  }

  /** The reader accepts exactly the images with such headers, and finds exactly these. */
  lemma HeaderIff(data: seq<byte>, h: Header)
    ensures ParseHeader(data) == Ok(h) <==> Describes(data, h)
  {
    if ParseHeader(data) == Ok(h) {
      AcceptedDescribes(data, h);
    }
    if Describes(data, h) {
      var pe: nat, size: nat :|
        && DosHeader(data, pe) && FileHeader(data, pe, h.sections, size)
        && OptionalHeader(data, pe + 24, size, h.headersSize, h.importRva, h.importSize)
        && h.sectionTable == pe + 24 + size && Inside(data, h.sectionTable, 40 * h.sections);
      DescribedAccepted(data, h, pe, size);
    }
  }

  // ---- Sections -----------------------------------------------------------

  /** A section header: 40 bytes, with the sizes and places at their offsets. */
  lemma SectionIs(data: seq<byte>, h: Header, index: nat)
    requires index < h.sections && Inside(data, h.sectionTable, 40 * h.sections)
    ensures var s, at := SectionAt(data, h, index), h.sectionTable + 40 * index;
            && s.virtualSize == Field(data, at + 8, 4) && s.virtualAddress == Field(data, at + 12, 4)
            && s.rawSize == Field(data, at + 16, 4) && s.raw == Field(data, at + 20, 4)
  {
    var at := h.sectionTable + 40 * index;
    U32Is(data, at + 8);
    U32Is(data, at + 12);
    U32Is(data, at + 16);
    U32Is(data, at + 20);
  }

  /** An address belongs to a section over the larger of its two sizes, and is in the file only within the raw
      size. */
  lemma BackedIs(data: seq<byte>, s: Section, rva: nat)
    ensures Contains(s, rva) <==>
              rva >= s.virtualAddress && (rva - s.virtualAddress < s.virtualSize || rva - s.virtualAddress < s.rawSize)
    ensures Contains(s, rva) ==>
              Backed(data, s, rva) ==
                if rva - s.virtualAddress >= s.rawSize then Err(UnbackedRva)
                else if s.raw + (rva - s.virtualAddress) >= |data| then Err(Truncated)
                else Ok(s.raw + (rva - s.virtualAddress))
  {
  }

  // ---- Descriptors and names ----------------------------------------------

  const NAME_CHARS: set<char> := {
    'a', 'b', 'c', 'd', 'e', 'f', 'g', 'h', 'i', 'j', 'k', 'l', 'm', 'n', 'o', 'p', 'q', 'r', 's', 't',
    'u', 'v', 'w', 'x', 'y', 'z', '0', '1', '2', '3', '4', '5', '6', '7', '8', '9', '_', '.', '+', '-' }

  /** A library or driver name in lower case, with at least one character before its extension. */
  predicate LibraryName(s: string) {
    && |s| > 4 && s[|s| - 4..] in {".dll", ".drv"} && forall k :: 0 <= k < |s| - 4 ==> s[k] in NAME_CHARS
  }

  lemma NameCharIff(c: char)
    ensures NameChar(c) <==> c in NAME_CHARS
  {
  }

  lemma ValidNameIff(s: string)
    ensures ValidName(s) <==> LibraryName(s)
  {
    forall c ensures NameChar(c) <==> c in NAME_CHARS {
      NameCharIff(c);
    }
  }

  /** An ASCII byte and its character, a capital letter with the small one. */
  predicate SameLetter(b: byte, c: char) {
    b < 128 && (if 'A' as int <= b <= 'Z' as int then c as int - 'a' as int == b - 'A' as int else c as int == b)
  }

  /** The bytes up to the first NUL, at most 511 of them, are this name, except for case. */
  predicate Spells(data: seq<byte>, offset: nat, s: string) {
    && |s| < 512 && offset + |s| < |data| && data[offset + |s|] == 0
    && var bytes := data[offset..offset + |s|]; forall k :: 0 <= k < |s| ==> bytes[k] != 0 && SameLetter(bytes[k], s[k])
  }

  lemma LowerByteIs(b: byte, c: char)
    requires b < 128
    ensures LowerByte(b) == c <==> SameLetter(b, c)
  {
  }

  lemma SpelledEnds(data: seq<byte>, offset: nat, s: string)
    requires Spells(data, offset, s)
    ensures FindZero(data, offset, Min(offset + 512, |data|)) == Some(offset + |s|)
  {
    var bytes := data[offset..offset + |s|];
    forall k | offset <= k < offset + |s| ensures data[k] != 0 {
      assert data[k] == bytes[k - offset];
    }
  }

  lemma SpelledLetters(bytes: seq<byte>, s: string)
    requires |bytes| == |s|
    ensures (forall k :: 0 <= k < |s| ==> SameLetter(bytes[k], s[k])) <==>
            (forall k :: 0 <= k < |bytes| ==> bytes[k] < 128) && Ascii(bytes) == s
  {
    if forall k :: 0 <= k < |s| ==> SameLetter(bytes[k], s[k]) {
      forall k | 0 <= k < |s| ensures Ascii(bytes)[k] == s[k] {
        LowerByteIs(bytes[k], s[k]);
      }
    }
    if (forall k :: 0 <= k < |bytes| ==> bytes[k] < 128) && Ascii(bytes) == s {
      forall k | 0 <= k < |s| ensures SameLetter(bytes[k], s[k]) {
        LowerByteIs(bytes[k], s[k]);
      }
    }
  }

  lemma NameAtIff(data: seq<byte>, offset: nat, s: string)
    requires offset < |data|
    ensures NameAt(data, offset) == Ok(s) <==> Spells(data, offset, s) && LibraryName(s)
  {
    ValidNameIff(s);
    if Spells(data, offset, s) {
      SpelledEnds(data, offset, s);
      SpelledLetters(data[offset..offset + |s|], s);
    }
    if NameAt(data, offset) == Ok(s) {
      var end := FindZero(data, offset, Min(offset + 512, |data|)).value;
      assert forall k :: 0 <= k < |s| ==> data[offset..end][k] == data[offset + k];
      SpelledLetters(data[offset..end], s);
    }
  }

  predicate AllZeros(bytes: seq<byte>) { forall k :: 0 <= k < |bytes| ==> bytes[k] == 0 }

  /** A descriptor of 20 bytes: all zero, or with the address of its name at offset 12. */
  lemma DescriptorIs(data: seq<byte>, h: Header, offset: nat)
    requires Inside(data, h.sectionTable, 40 * h.sections) && Inside(data, offset, 20)
    ensures DescriptorIn(data, h, offset) ==
              if AllZeros(data[offset..offset + 20]) then Ok(None)
              else
                var place := RvaOffset(data, h, Field(data, offset + 12, 4));
                if place.Err? then Err(place.error)
                else match NameAt(data, place.value) case Ok(s) => Ok(Some(s)) case Err(e) => Err(e)
  {
    U32Is(data, offset + 12);
    assert forall k :: offset <= k < offset + 20 ==> data[k] == data[offset..offset + 20][k - offset];
  }

  /** The i-th descriptor stands 20 bytes further for each one before it. */
  lemma DescriptorAtIs(data: seq<byte>, h: Header, index: nat)
    requires Inside(data, h.sectionTable, 40 * h.sections)
    ensures DescriptorAt(data, h, index) ==
              match RvaOffset(data, h, h.importRva + 20 * index)
              case Err(e) => Err(e)
              case Ok(offset) => if offset + 20 > |data| then Err(Truncated) else DescriptorIn(data, h, offset)
    ensures MaxDescriptors(h) == if h.importSize / 20 < 256 then h.importSize / 20 else 256
  {
  }
}
