/** ELF images: loading of segments, the symbol table, and the state a program starts in. */
module Elf {
  import opened Bits
  import opened Memory
  import opened Machine

  const PT_NULL := 0
  const PT_LOAD := 1

  datatype Phdr = Phdr(ptype: Word, offset: Word, vaddr: Word, filesz: Word, memsz: Word)

  /** The little-endian word of four file bytes. */
  function FileWord(image: seq<Byte>, o: nat): Word
    requires o + 4 <= |image|
  {
    Join(image[o], image[o + 1], image[o + 2], image[o + 3])
  }

  function FileHalf(image: seq<Byte>, o: nat): Half
    requires o + 2 <= |image|
  {
    var low: int, high: int := image[o], image[o + 1];
    low + 0x100 * high
  }

  // ----- Segments -----

  /** The loader's own tests, with sums that wrap at 32 bits. */
  predicate SegmentChecks(ph: Phdr, elfsz: nat, limit: nat) {
    && ToWord(ph.offset + ph.filesz) <= elfsz
    && ToWord(ph.vaddr + ph.memsz) <= limit
    && ph.vaddr >= LOWBASE
    && ph.filesz % 4 == 0 && ph.memsz % 4 == 0 && ph.memsz >= ph.filesz
  }

  predicate SumsFit(ph: Phdr) {
    ph.offset + ph.filesz < WORD && ph.vaddr + ph.memsz < WORD
  }

  /** The copying loops stay inside file and memory and write aligned words. The loader does not test
      this: what it does otherwise is not defined. */
  predicate Placed(ph: Phdr, elfsz: nat, memsz: nat) {
    ph.memsz == 0 || (ph.vaddr % 4 == 0 && ph.vaddr + ph.memsz <= memsz && ph.offset + ph.filesz <= elfsz)
  }

  /** A header that passes the tests is well placed iff its sums do not wrap and its address is aligned. */
  lemma PlacedIff(ph: Phdr, elfsz: nat, limit: nat, memsz: nat)
    requires elfsz < WORD && limit <= memsz < WORD && SegmentChecks(ph, elfsz, limit)
    ensures Placed(ph, elfsz, memsz) <==> SumsFit(ph) && (ph.memsz == 0 || ph.vaddr % 4 == 0)
    ensures SumsFit(ph) <==> ph.offset + ph.filesz <= elfsz && ph.vaddr + ph.memsz <= limit
  {
  }

  /** A header whose end wraps passes them although it lies outside memory. */
  lemma WrappingHeaderPasses() returns (ph: Phdr)
    ensures SegmentChecks(ph, 0x1000, 0x2000) && ph.vaddr >= 0x2000 && ph.memsz > 0
  {
    ph := Phdr(PT_LOAD, 0, 0xFFFF_F000, 0, 0x1000);
  }

  predicate Loadable(mem: Ram, limit: nat, ph: Phdr, image: seq<Byte>) {
    limit <= MemSize(mem) && SegmentChecks(ph, |image|, limit) && Placed(ph, |image|, MemSize(mem))
  }

  /** Word `k` of memory belongs to the segment. */
  predicate Covers(ph: Phdr, k: nat) {
    ph.ptype == PT_LOAD && ph.vaddr <= 4 * k < ph.vaddr + ph.memsz
  }

  /** What the segment puts in raw word `k`: file data verbatim, then encoded zeros. */
  function SegmentWord(c: Codec, ph: Phdr, image: seq<Byte>, k: nat): Word
    requires ph.vaddr % 4 == 0 && ph.offset + ph.filesz <= |image| && ph.filesz % 4 == 0
    requires Covers(ph, k)
  {
    if 4 * k < ph.vaddr + ph.filesz then FileWord(image, ph.offset + (4 * k - ph.vaddr)) else c.enc(4 * k, 0)
  }

  function Overlay(c: Codec, mem: Ram, limit: nat, ph: Phdr, image: seq<Byte>): (mem': Ram)
    requires Loadable(mem, limit, ph, image)
    ensures |mem'| == |mem|
  {
    seq(|mem|, k requires 0 <= k < |mem| => if Covers(ph, k) then SegmentWord(c, ph, image, k) else mem[k])
  }

  datatype LoadResult = Loaded(mem: Ram) | LoadFailed(mem: Ram) | LoadUndefined

  function LoadSegments(c: Codec, mem: Ram, limit: nat, phs: seq<Phdr>, image: seq<Byte>): (r: LoadResult)
    requires limit <= MemSize(mem)
    ensures r.LoadUndefined? || |r.mem| == |mem|
    decreases |phs|
  {
    if phs == [] then Loaded(mem)
    else if phs[0].ptype == PT_NULL then LoadSegments(c, mem, limit, phs[1..], image)
    else if phs[0].ptype == PT_LOAD && SegmentChecks(phs[0], |image|, limit) then
      if !Placed(phs[0], |image|, MemSize(mem)) then LoadUndefined
      else LoadSegments(c, Overlay(c, mem, limit, phs[0], image), limit, phs[1..], image)
    else LoadFailed(mem)
  }

  /** The last PT_LOAD header that covers word `k`, or -1. */
  function LastCover(phs: seq<Phdr>, k: nat): (i: int)
    ensures -1 <= i < |phs|
    ensures i >= 0 ==> Covers(phs[i], k)
    ensures forall j :: i < j < |phs| ==> !Covers(phs[j], k)
  {
    if phs == [] then -1
    else
      var i := LastCover(phs[1..], k);
      if i >= 0 then i + 1 else if Covers(phs[0], k) then 0 else -1
  }

  /** After a successful load, memory is the overlay of the segments in order: each raw word is what the
      last segment covering it puts there, and words no segment covers have not changed. */
  lemma {:induction false} SegmentImage(c: Codec, mem: Ram, limit: nat, phs: seq<Phdr>, image: seq<Byte>, k: nat)
    requires limit <= MemSize(mem) && k < |mem|
    requires LoadSegments(c, mem, limit, phs, image).Loaded?
    ensures var mem', i := LoadSegments(c, mem, limit, phs, image).mem, LastCover(phs, k);
            if i < 0 then mem'[k] == mem[k]
            else Loadable(mem, limit, phs[i], image) && mem'[k] == SegmentWord(c, phs[i], image, k)
    decreases |phs|
  {
    hide SegmentWord;
    if phs != [] {
      var head, rest := phs[0], phs[1..];
      if head.ptype == PT_NULL {
        SegmentImage(c, mem, limit, rest, image, k);
      } else {
        SegmentImage(c, Overlay(c, mem, limit, head, image), limit, rest, image, k);
      }
    }
  }

  /** A load succeeds iff every header is PT_NULL, or PT_LOAD and Loadable. */
  lemma {:induction false} LoadsIff(c: Codec, mem: Ram, limit: nat, phs: seq<Phdr>, image: seq<Byte>)
    requires limit <= MemSize(mem)
    ensures LoadSegments(c, mem, limit, phs, image).Loaded? <==>
            forall i :: 0 <= i < |phs| && phs[i].ptype != PT_NULL ==>
              phs[i].ptype == PT_LOAD && Loadable(mem, limit, phs[i], image)
    decreases |phs|
  {
    hide SegmentWord, SegmentChecks, Placed;
    if phs != [] {
      var head, rest := phs[0], phs[1..];
      assert forall i :: 0 < i < |phs| ==> phs[i] == rest[i - 1];
      if head.ptype == PT_NULL {
        LoadsIff(c, mem, limit, rest, image);
      } else if head.ptype == PT_LOAD && Loadable(mem, limit, head, image) {
        LoadsIff(c, Overlay(c, mem, limit, head, image), limit, rest, image);
      }
    }
  }

  lemma LoadableAligned(mem: Ram, limit: nat, ph: Phdr, image: seq<Byte>, b: nat)
    requires Loadable(mem, limit, ph, image) && ph.ptype == PT_LOAD
    ensures Covers(ph, b / 4) <==> ph.vaddr <= b < ph.vaddr + ph.memsz
  {
  }

  /** What a header has to be for a load to succeed, in numbers. */
  predicate LoadsAlone(ph: Phdr, elfsz: nat, limit: nat, memsz: nat) {
    || ph.ptype == 0
    || (&& ph.ptype == 1
        && (ph.offset + ph.filesz) % 0x1_0000_0000 <= elfsz && (ph.vaddr + ph.memsz) % 0x1_0000_0000 <= limit
        && 0x1000 <= ph.vaddr && ph.filesz % 4 == 0 && ph.memsz % 4 == 0 && ph.filesz <= ph.memsz
        && (ph.memsz == 0 || (ph.vaddr % 4 == 0 && ph.vaddr + ph.memsz <= memsz && ph.offset + ph.filesz <= elfsz)))
  }

  lemma LoadsInNumbers(c: Codec, mem: Ram, limit: nat, phs: seq<Phdr>, image: seq<Byte>)
    requires limit <= MemSize(mem)
    ensures LoadSegments(c, mem, limit, phs, image).Loaded? <==>
            forall i :: 0 <= i < |phs| ==> LoadsAlone(phs[i], |image|, limit, 4 * |mem|)
  {
    hide LoadSegments;
    LoadsIff(c, mem, limit, phs, image);
    forall i | 0 <= i < |phs|
      ensures LoadsAlone(phs[i], |image|, limit, 4 * |mem|) <==>
              (phs[i].ptype != PT_NULL ==> phs[i].ptype == PT_LOAD && Loadable(mem, limit, phs[i], image))
    {
    }
  }

  /** The same in bytes, for the last PT_LOAD header over a byte: data byte `i` of the segment is raw byte
      vaddr + i of memory, and behind the data the guest reads zero. Bytes under no header keep their word. */
  lemma SegmentBytes(c: Codec, mem: Ram, limit: nat, phs: seq<Phdr>, image: seq<Byte>, j: nat, i: nat)
    requires limit <= MemSize(mem) && LoadSegments(c, mem, limit, phs, image).Loaded?
    requires j < |phs| && phs[j].ptype == 1 && i < phs[j].memsz
    requires forall l :: j < l < |phs| && phs[l].ptype == 1 ==> !(phs[l].vaddr <= phs[j].vaddr + i < phs[l].vaddr + phs[l].memsz)
    ensures var mem', a := LoadSegments(c, mem, limit, phs, image).mem, phs[j].vaddr + i;
            && GuestByte(mem', a)
            && (i < phs[j].filesz ==> phs[j].offset + i < |image| && ByteAt(IDENTITY, mem', a) == image[phs[j].offset + i])
            && (i >= phs[j].filesz && Sound(c) ==> ByteAt(c, mem', a) == 0)
  {
    hide LoadSegments, SegmentWord, ByteOf, SegmentChecks, Placed, FileWord;
    var ph, a := phs[j], phs[j].vaddr + i;
    LoadsIff(c, mem, limit, phs, image);
    assert Loadable(mem, limit, ph, image);
    LoadableAligned(mem, limit, ph, image, a);
    forall l | j < l < |phs| && phs[l].ptype == PT_LOAD
      ensures !Covers(phs[l], a / 4)
    {
      assert Loadable(mem, limit, phs[l], image);
      LoadableAligned(mem, limit, phs[l], image, a);
    }
    assert LastCover(phs, a / 4) == j;
    PlacedInside(mem, limit, ph, image, i);
    SegmentImage(c, mem, limit, phs, image, a / 4);
    SegmentWordBytes(c, ph, image, i);
  }

  lemma PlacedInside(mem: Ram, limit: nat, ph: Phdr, image: seq<Byte>, i: nat)
    requires Loadable(mem, limit, ph, image) && ph.ptype == PT_LOAD && i < ph.memsz
    ensures GuestByte(mem, ph.vaddr + i) && (ph.vaddr + i) / 4 < |mem|
    ensures ph.vaddr % 4 == 0 && ph.filesz % 4 == 0 && ph.offset + ph.filesz <= |image|
    ensures i < ph.filesz ==> ph.offset + i < |image|
  {
  }

  lemma SegmentWordBytes(c: Codec, ph: Phdr, image: seq<Byte>, i: nat)
    requires ph.vaddr % 4 == 0 && ph.filesz % 4 == 0 && ph.offset + ph.filesz <= |image|
    requires Covers(ph, (ph.vaddr + i) / 4) && i < ph.memsz
    ensures var a := ph.vaddr + i; var w := SegmentWord(c, ph, image, a / 4);
            && (i < ph.filesz ==> ph.offset + i < |image| && ByteOf(w, a % 4) == image[ph.offset + i])
            && (i >= ph.filesz && Sound(c) ==> ByteOf(c.dec(a - a % 4, w), a % 4) == 0)
  {
    hide FileWord, ByteOf;
    var a := ph.vaddr + i;
    var k := a / 4;
    assert 4 * k == a - a % 4 && i % 4 == a % 4;
    if i < ph.filesz {
      FileWordByte(image, ph.offset + (i - i % 4), i % 4);
    } else {
      ZeroByte(a % 4);
    }
  }

  lemma FileWordByte(image: seq<Byte>, o: nat, k: nat)
    requires o + 4 <= |image| && k < 4
    ensures ByteOf(FileWord(image, o), k) == image[o + k]
  {
    BytesOfJoin(image[o], image[o + 1], image[o + 2], image[o + 3]);
  }

  lemma ZeroByte(k: nat)
    requires k < 4
    ensures ByteOf(0, k) == 0
  {
  }

  /** Loading stays inside the program area: it writes neither the control block nor the stack. */
  lemma {:induction false} LoadStaysInside(c: Codec, mem: Ram, limit: nat, phs: seq<Phdr>, image: seq<Byte>, k: nat)
    requires limit <= MemSize(mem) && k < |mem|
    requires !LoadSegments(c, mem, limit, phs, image).LoadUndefined?
    requires 4 * k < LOWBASE || 4 * k >= limit
    ensures LoadSegments(c, mem, limit, phs, image).mem[k] == mem[k]
    decreases |phs|
  {
    hide SegmentWord;
    if phs != [] {
      if phs[0].ptype == PT_NULL {
        LoadStaysInside(c, mem, limit, phs[1..], image, k);
      } else if phs[0].ptype == PT_LOAD && SegmentChecks(phs[0], |image|, limit) {
        SegmentBelowLimit(phs[0], |image|, limit, MemSize(mem));
        LoadStaysInside(c, Overlay(c, mem, limit, phs[0], image), limit, phs[1..], image, k);
      }
    }
  }

  lemma SegmentBelowLimit(ph: Phdr, elfsz: nat, limit: nat, memsz: nat)
    requires memsz < WORD && SegmentChecks(ph, elfsz, limit) && Placed(ph, elfsz, memsz)
    ensures ph.memsz == 0 || ph.vaddr + ph.memsz <= limit
  {
  }

  /** The tail of a segment past its file data reads as zero through the hook. */
  lemma TailReadsZero(c: Codec, ph: Phdr, image: seq<Byte>, k: nat)
    requires Sound(c) && ph.vaddr % 4 == 0 && ph.offset + ph.filesz <= |image| && ph.filesz % 4 == 0
    requires Covers(ph, k) && 4 * k >= ph.vaddr + ph.filesz
    ensures c.dec(4 * k, SegmentWord(c, ph, image, k)) == 0
  {
  }

  // ----- Symbols -----

  const STB_GLOBAL := 1
  const STT_SECTION := 3
  const SHN_ABS := 0xFFF1
  const SHT_SYMTAB := 2
  const SHT_STRTAB := 3

  datatype Sym = Sym(name: Word, value: Word, bind: nat, kind: nat, shndx: nat)

  datatype Shdr = Shdr(kind: Word, offset: Word, size: Word, entsize: Word)

  /** The headers of the symbol table and of its string table. */
  datatype Tables = Tables(symtab: Shdr, strings: Shdr)

  /** The result of a look-up; Undefined where the source reads past the file or divides by zero. */
  datatype Lookup<+T> = Found(value: T) | Missing | Undefined

  /** The size of a symbol record in the file. */
  const SYM_SIZE := 16

  function SymAt(image: seq<Byte>, o: nat): Sym
    requires o + SYM_SIZE <= |image|
  {
    Sym(FileWord(image, o), FileWord(image, o + 4), image[o + 12] / 16, image[o + 12] % 16,
        FileHalf(image, o + 14))
  }

  /** The number of entries. */
  function Count(t: Tables): nat
    requires t.symtab.entsize > 0
  {
    DivBound(t.symtab.size, t.symtab.entsize);
    t.symtab.size / t.symtab.entsize
  }

  function GetSym(t: Tables, image: seq<Byte>, i: nat): Lookup<Sym> {
    var toff := ToWord(i * t.symtab.entsize);
    var off := ToWord(t.symtab.offset + toff);
    if t.symtab.kind != SHT_SYMTAB || toff >= t.symtab.size || off >= |image| then Missing
    else if off + SYM_SIZE > |image| then Undefined
    else Found(SymAt(image, off))
  }

  /** In a symbol table that lies in the file and has entries of full size, every entry is read. */
  lemma EntryPresent(t: Tables, image: seq<Byte>, i: nat)
    requires t.symtab.kind == SHT_SYMTAB && t.symtab.entsize >= SYM_SIZE
    requires t.symtab.offset + t.symtab.size <= |image| && t.symtab.offset + t.symtab.size < WORD && i < Count(t)
    ensures 0 <= i * t.symtab.entsize && i * t.symtab.entsize + SYM_SIZE <= t.symtab.size
    ensures GetSym(t, image, i) == Found(SymAt(image, t.symtab.offset + i * t.symtab.entsize))
  {
    hide SymAt, ToWord;
    EntryInside(t.symtab.size, t.symtab.entsize, i);
    var toff: nat := i * t.symtab.entsize;
    NoWrap(toff);
    NoWrap(t.symtab.offset + toff);
  }

  lemma NoWrap(n: nat)
    requires n < WORD
    ensures ToWord(n) == n
  {
  }

  lemma EntryInside(size: nat, e: nat, i: nat)
    requires e > 0 && i < size / e
    ensures 0 <= i * e && i * e + e <= size
  {
    var n := size / e;
    assert size == e * n + size % e;
    MulMono(e, i + 1, n);
    assert e * (i + 1) == e * i + e;
  }

  /** The bytes from `p` up to the first zero. */
  function CString(image: seq<Byte>, p: nat): seq<Byte>
    decreases |image| - p
  {
    if p >= |image| || image[p] == 0 then [] else [image[p]] + CString(image, p + 1)
  }

  /** A zero ends the string at `ndx` inside its section and inside the file. */
  ghost predicate Terminated(image: seq<Byte>, sh: Shdr, ndx: nat) {
    exists p :: sh.offset + ndx <= p < sh.offset + sh.size && p < |image| && image[p] == 0
  }

  /** The string at `ndx` of a string table; it has to end inside its section, and the search for its end
      runs out of the file if the section does and holds no zero before. */
  ghost function GetString(image: seq<Byte>, sh: Shdr, ndx: nat): Lookup<seq<Byte>> {
    if sh.kind != SHT_STRTAB || ndx >= sh.size || sh.offset >= |image| then Missing
    else if Terminated(image, sh, ndx) then Found(CString(image, sh.offset + ndx))
    else if sh.offset + sh.size > |image| then Undefined
    else Missing
  }

  /** A string is found exactly when its bytes and a zero stand at its place, inside section and file; the
      search leaves the file exactly when the section does and no zero comes before its end. */
  lemma StringFoundIff(image: seq<Byte>, sh: Shdr, ndx: nat, v: seq<Byte>)
    ensures GetString(image, sh, ndx) == Found(v) <==>
            && sh.kind == 3 && sh.offset < |image| && 0 !in v
            && ndx + |v| < sh.size && sh.offset + ndx + |v| < |image|
            && image[sh.offset + ndx..sh.offset + ndx + |v|] == v && image[sh.offset + ndx + |v|] == 0
    ensures GetString(image, sh, ndx) == Undefined <==>
            && sh.kind == 3 && ndx < sh.size && sh.offset < |image| && sh.offset + sh.size > |image|
            && (forall p :: sh.offset + ndx <= p < |image| ==> image[p] != 0)
  {
    hide CString;
    var from := sh.offset + ndx;
    if from <= |image| {
      CStringIs(image, from, v);
    }
    if Terminated(image, sh, ndx) {
      var p :| from <= p < sh.offset + sh.size && p < |image| && image[p] == 0;
      CStringStops(image, from, p);
    }
  }

  /** The string at `p` ends at or before the first zero. */
  lemma {:induction false} CStringStops(image: seq<Byte>, p: nat, e: nat)
    requires p <= e < |image| && image[e] == 0
    ensures p + |CString(image, p)| <= e && image[p + |CString(image, p)|] == 0
    decreases e - p
  {
    if image[p] != 0 {
      CStringStops(image, p + 1, e);
    }
  }

  lemma {:induction false} CStringIs(image: seq<Byte>, p: nat, v: seq<Byte>)
    requires p <= |image|
    ensures p + |CString(image, p)| <= |image| && 0 !in CString(image, p)
    ensures image[p..p + |CString(image, p)|] == CString(image, p)
    ensures p + |v| < |image| && image[p..p + |v|] == v && 0 !in v && image[p + |v|] == 0 ==> CString(image, p) == v
    decreases |image| - p
  {
    if p < |image| && image[p] != 0 {
      CStringIs(image, p + 1, if v == [] then [] else v[1..]);
      if p + |v| < |image| && image[p..p + |v|] == v && v != [] {
        assert image[p + 1..p + |v|] == v[1..] && v[0] == image[p];
        assert v == [v[0]] + v[1..];
      }
    } else if v != [] && p + |v| < |image| && image[p..p + |v|] == v {
      assert v[0] == image[p];
    }
  }

  /** The name of entry `i`, as far as it can be read. */
  ghost function SymbolName(t: Tables, image: seq<Byte>, i: nat): Lookup<seq<Byte>> {
    match GetSym(t, image, i)
    case Found(sym) => GetString(image, t.strings, sym.name)
    case Missing => Missing
    case Undefined => Undefined
  }

  /** The search from entry `i` on; an unreadable entry ends it without a result. */
  ghost function FindFrom(t: Tables, image: seq<Byte>, name: seq<Byte>, i: nat): Lookup<Sym>
    requires t.symtab.entsize > 0
    decreases Count(t) - i
  {
    if i >= Count(t) then Missing
    else match GetSym(t, image, i)
      case Missing => Missing
      case Undefined => Undefined
      case Found(sym) =>
        if sym.bind != STB_GLOBAL then FindFrom(t, image, name, i + 1)
        else match GetString(image, t.strings, sym.name)
          case Missing => Missing
          case Undefined => Undefined
          case Found(s) => if s == name then Found(sym) else FindFrom(t, image, name, i + 1)
  }

  ghost function FindSymbol(t: Tables, image: seq<Byte>, name: seq<Byte>): Lookup<Sym> {
    if t.symtab.entsize == 0 then Undefined
    else if ToWord(t.symtab.offset + t.symtab.size) > |image| then Missing
    else FindFrom(t, image, name, 0)
  }

  /** Entry `i` can be read and is not the one looked for: it is not global, or called otherwise. */
  ghost predicate Passed(t: Tables, image: seq<Byte>, name: seq<Byte>, i: nat) {
    var entry := GetSym(t, image, i);
    entry.Found? && (entry.value.bind == STB_GLOBAL ==>
                       SymbolName(t, image, i).Found? && SymbolName(t, image, i).value != name)
  }

  /** Entry `i` is the first one the search does not pass. */
  ghost predicate FirstStop(t: Tables, image: seq<Byte>, name: seq<Byte>, from: nat, i: nat) {
    !Passed(t, image, name, i) && forall j :: from <= j < i ==> Passed(t, image, name, j)
  }

  /** Entry `i` is the answer: global and called `name`, and every entry before it is readable and is not. */
  ghost predicate IsFirstMatch(t: Tables, image: seq<Byte>, name: seq<Byte>, from: nat, i: nat) {
    && FirstStop(t, image, name, from, i)
    && GetSym(t, image, i).Found? && GetSym(t, image, i).value.bind == STB_GLOBAL
    && SymbolName(t, image, i) == Found(name)
  }

  /** The first entry that is not passed leads out of the file. */
  ghost predicate IsFirstUndefined(t: Tables, image: seq<Byte>, name: seq<Byte>, from: nat, i: nat) {
    && FirstStop(t, image, name, from, i)
    && SymbolName(t, image, i) == Undefined
  }

  /** Starting the search behind a passed entry makes no difference. */
  lemma FirstLater(t: Tables, image: seq<Byte>, name: seq<Byte>, from: nat, i: nat)
    requires from < i && Passed(t, image, name, from)
    ensures IsFirstMatch(t, image, name, from, i) <==> IsFirstMatch(t, image, name, from + 1, i)
    ensures IsFirstUndefined(t, image, name, from, i) <==> IsFirstUndefined(t, image, name, from + 1, i)
  {
    hide Passed, SymbolName, GetSym;
    assert FirstStop(t, image, name, from, i) <==> FirstStop(t, image, name, from + 1, i);
  }

  lemma {:induction false} FindFromFirst(t: Tables, image: seq<Byte>, name: seq<Byte>, from: nat)
    requires t.symtab.entsize > 0
    ensures var r, n := FindFrom(t, image, name, from), Count(t);
            match r
            case Found(sym) =>
              exists i :: from <= i < n && IsFirstMatch(t, image, name, from, i) && GetSym(t, image, i) == Found(sym)
            case Undefined => exists i :: from <= i < n && IsFirstUndefined(t, image, name, from, i)
            case Missing =>
              forall i :: from <= i < n ==>
                !IsFirstMatch(t, image, name, from, i) && !IsFirstUndefined(t, image, name, from, i)
    decreases Count(t) - from
  {
    hide GetString, GetSym;
    if from < Count(t) {
      if Passed(t, image, name, from) {
        FindFromFirst(t, image, name, from + 1);
        forall i | from < i < Count(t)
          ensures IsFirstMatch(t, image, name, from, i) <==> IsFirstMatch(t, image, name, from + 1, i)
          ensures IsFirstUndefined(t, image, name, from, i) <==> IsFirstUndefined(t, image, name, from + 1, i)
        {
          FirstLater(t, image, name, from, i);
        }
        if FindFrom(t, image, name, from + 1).Undefined? {
          var i :| from < i < Count(t) && IsFirstUndefined(t, image, name, from + 1, i);
          assert IsFirstUndefined(t, image, name, from, i);
        }
      } else {
        assert FirstStop(t, image, name, from, from);
        assert IsFirstMatch(t, image, name, from, from) || IsFirstUndefined(t, image, name, from, from) ||
               FindFrom(t, image, name, from).Missing?;
        forall i | from < i < Count(t)
          ensures !IsFirstMatch(t, image, name, from, i) && !IsFirstUndefined(t, image, name, from, i)
        {
        }
      }
    }
  }

  /** The symbol search returns the first global symbol of that name if every entry before it is readable,
      with a readable name if it is global; it leads to an undefined read if the first entry that fails
      this one way or the other does; and it returns nothing otherwise. */
  lemma FindSymbolFirst(t: Tables, image: seq<Byte>, name: seq<Byte>)
    requires t.symtab.entsize > 0 && ToWord(t.symtab.offset + t.symtab.size) <= |image|
    ensures var n := Count(t);
            match FindSymbol(t, image, name)
            case Found(sym) =>
              exists i :: 0 <= i < n && IsFirstMatch(t, image, name, 0, i) && GetSym(t, image, i) == Found(sym)
            case Undefined => exists i :: 0 <= i < n && IsFirstUndefined(t, image, name, 0, i)
            case Missing =>
              forall i :: 0 <= i < n ==>
                !IsFirstMatch(t, image, name, 0, i) && !IsFirstUndefined(t, image, name, 0, i)
  {
    hide IsFirstMatch, IsFirstUndefined;
    FindFromFirst(t, image, name, 0);
  }

  // ----- The start state -----

  /** A range of file bytes. */
  datatype Extent = Extent(offset: nat, size: nat)

  /** A parsed image: whether the header passed its checks, the entry point, the program headers, the
      symbol table headers, if they were found, and the ranges of the file all this was read from. */
  datatype ElfFile = ElfFile(headerOk: bool, entry: Word, phdrs: seq<Phdr>, tables: Option<Tables>, records: seq<Extent>)

  const GP_NAME: seq<Byte> := [0x5F, 0x67, 0x70]
  const END_NAME: seq<Byte> := [0x5F, 0x65, 0x6E, 0x64]

  /** An absolute symbol inside the program area. */
  predicate Usable(sym: Sym, limit: nat) {
    sym.shndx == SHN_ABS && LOWBASE <= sym.value < limit
  }

  datatype Start = Started(st: State, brk: Word) | NotStarted | StartUndefined

  function StartCore(core: Core, entry: Word, gp: Word, memsz: Word): Core
    requires memsz >= 4
  {
    core.(pc := entry, g := core.g.(r := core.g.r[28 := gp][29 := memsz - 4][31 := 0]))
  }

  /** The address a symbol gives the loader. */
  ghost function SymbolAddress(t: Tables, image: seq<Byte>, name: seq<Byte>, limit: nat): Lookup<Word> {
    match FindSymbol(t, image, name)
    case Found(sym) => if Usable(sym, limit) then Found(sym.value) else Missing
    case Missing => Missing
    case Undefined => Undefined
  }

  ghost function ElfLoad(c: Codec, m: State, stksz: nat, elf: ElfFile, image: seq<Byte>): Start
    requires stksz <= MemSize(m.mem)
  {
    var limit := MemSize(m.mem) - stksz;
    if !elf.headerOk then NotStarted
    else match LoadSegments(c, m.mem, limit, elf.phdrs, image)
      case LoadFailed(_) => NotStarted
      case LoadUndefined => StartUndefined
      case Loaded(mem) =>
        if elf.tables.None? || elf.entry >= limit then NotStarted
        else match SymbolAddress(elf.tables.value, image, GP_NAME, limit)
          case Missing => NotStarted
          case Undefined => StartUndefined
          case Found(gp) =>
            match SymbolAddress(elf.tables.value, image, END_NAME, limit)
            case Missing => NotStarted
            case Undefined => StartUndefined
            case Found(end) =>
              if elf.entry < LOWBASE then NotStarted
              else Started(State(StartCore(m.core, elf.entry, gp, MemSize(m.mem)), mem), end)
  }

  /** The symbol of that name is found, absolute and inside the program area. */
  ghost predicate GivesAddress(t: Tables, image: seq<Byte>, name: seq<Byte>, limit: nat) {
    var found := FindSymbol(t, image, name);
    found.Found? && found.value.shndx == 0xFFF1 && 0x1000 <= found.value.value < limit
  }

  /** A program starts if and only if the header is accepted, the segments load, there are symbol tables, the
      entry point lies in the program area, and _gp and _end give addresses there. */
  lemma StartsIff(c: Codec, m: State, stksz: nat, elf: ElfFile, image: seq<Byte>)
    requires stksz <= MemSize(m.mem)
    ensures var limit := 4 * |m.mem| - stksz;
            ElfLoad(c, m, stksz, elf, image).Started? <==>
            && elf.headerOk && LoadSegments(c, m.mem, limit, elf.phdrs, image).Loaded? && elf.tables.Some?
            && 0x1000 <= elf.entry < limit
            && GivesAddress(elf.tables.value, image, [0x5F, 0x67, 0x70], limit)
            && GivesAddress(elf.tables.value, image, [0x5F, 0x65, 0x6E, 0x64], limit)
  {
    hide LoadSegments, FindSymbol;
  }

  /** A started program: PC and the stack pointer are set, $28 and the break are the values of the first
      global symbols called _gp and _end, and the other registers, the delay slot and the control block
      are as they were. */
  lemma StartsClean(c: Codec, m: State, stksz: nat, elf: ElfFile, image: seq<Byte>)
    requires stksz <= MemSize(m.mem)
    requires ElfLoad(c, m, stksz, elf, image).Started?
    ensures elf.tables.Some? && elf.tables.value.symtab.entsize > 0
    ensures var start, t, core := ElfLoad(c, m, stksz, elf, image), elf.tables.value, m.core;
            var core' := start.st.core;
            && core'.pc == elf.entry && LOWBASE <= core'.pc < MemSize(m.mem) - stksz
            && core'.g.r[29] == MemSize(m.mem) - 4 && core'.g.r[31] == 0
            && FirstSymbolValue(t, image, GP_NAME, core'.g.r[28])
            && FirstSymbolValue(t, image, END_NAME, start.brk)
            && (forall i :: 0 <= i < 32 && i != 28 && i != 29 && i != 31 ==> core'.g.r[i] == core.g.r[i])
            && core'.g.hi == core.g.hi && core'.g.lo == core.g.lo && core'.ds == core.ds
            && SameControlBlock(m.mem, start.st.mem)
  {
    hide FindFrom, LoadSegments, IsFirstMatch;
    var limit, t := MemSize(m.mem) - stksz, elf.tables.value;
    FindSymbolFirst(t, image, GP_NAME);
    FindSymbolFirst(t, image, END_NAME);
    forall k | 0 <= k < LOWBASE_INDEX
      ensures LoadSegments(c, m.mem, limit, elf.phdrs, image).mem[k] == m.mem[k]
    {
      LoadStaysInside(c, m.mem, limit, elf.phdrs, image, k);
    }
  }

  /** `v` is the value of the first symbol of that name. */
  ghost predicate FirstSymbolValue(t: Tables, image: seq<Byte>, name: seq<Byte>, v: Word)
    requires t.symtab.entsize > 0
  {
    exists i :: 0 <= i < Count(t) && IsFirstMatch(t, image, name, 0, i) && GetSym(t, image, i).value.value == v
  }
}
