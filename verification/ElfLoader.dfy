/** The loader as it runs on the CPU object, and the symbol searches as loops. */
module ElfLoader {
  import opened Bits
  import opened Memory
  import opened Elf
  import C = Cpu

  // ----- Segments -----

  /** STRAY stands for writes outside memory, reads past the file, and a throw with nobody to catch it. */
  datatype Status = DONE | FAILED | STRAY

  method LoadSegment(cpu: C.Cpu, image: seq<Byte>, ph: Phdr) returns (status: Status)
    requires cpu.Valid() && ph.ptype == PT_LOAD
    modifies cpu.mem
    ensures cpu.Valid()
    ensures var limit := MemSize(cpu.mem[..]) - cpu.stksz;
            if !SegmentChecks(ph, |image|, limit) then status == FAILED && cpu.mem[..] == old(cpu.mem[..])
            else if !Placed(ph, |image|, MemSize(cpu.mem[..])) then status == STRAY
            else status == DONE && cpu.mem[..] == Overlay(cpu.codec, old(cpu.mem[..]), limit, ph, image)
  {
    var limit := 4 * cpu.mem.Length - cpu.stksz;
    if !SegmentChecks(ph, |image|, limit) {
      return FAILED;
    }
    if !Placed(ph, |image|, 4 * cpu.mem.Length) {
      return STRAY;
    }
    CopyData(cpu, image, ph);
    ZeroTail(cpu, image, ph, old(cpu.mem[..]));
    status := DONE;
  }

  /** The file data, written verbatim, past the hooks. */
  method CopyData(cpu: C.Cpu, image: seq<Byte>, ph: Phdr)
    requires cpu.Valid() && Loadable(cpu.mem[..], MemSize(cpu.mem[..]) - cpu.stksz, ph, image)
    requires ph.ptype == PT_LOAD
    modifies cpu.mem
    ensures cpu.Valid()
    ensures Partial(cpu.codec, old(cpu.mem[..]), cpu.mem[..], ph, image, ph.filesz)
  {
    hide FileWord;
    var i: nat := 0;
    while i < ph.filesz
      invariant cpu.Valid() && i % 4 == 0 && i <= ph.filesz
      invariant Partial(cpu.codec, old(cpu.mem[..]), cpu.mem[..], ph, image, i)
      decreases ph.filesz - i
    {
      ghost var prior := cpu.mem[..];
      cpu.mem[(ph.vaddr + i) / 4] := FileWord(image, ph.offset + i);
      PartialNext(cpu.codec, old(cpu.mem[..]), prior, cpu.mem[..], ph, image, i);
      i := i + 4;
    }
  }

  /** The rest of the segment, zeroed through the hook. */
  method ZeroTail(cpu: C.Cpu, image: seq<Byte>, ph: Phdr, ghost before: Ram)
    requires cpu.Valid() && Loadable(cpu.mem[..], MemSize(cpu.mem[..]) - cpu.stksz, ph, image)
    requires ph.ptype == PT_LOAD
    requires Partial(cpu.codec, before, cpu.mem[..], ph, image, ph.filesz)
    modifies cpu.mem
    ensures cpu.Valid()
    ensures cpu.mem[..] == Overlay(cpu.codec, before, MemSize(cpu.mem[..]) - cpu.stksz, ph, image)
  {
    hide FileWord;
    var i: nat := ph.filesz;
    while i < ph.memsz
      invariant cpu.Valid() && i % 4 == 0 && ph.filesz <= i <= ph.memsz
      invariant Partial(cpu.codec, before, cpu.mem[..], ph, image, i)
      decreases ph.memsz - i
    {
      ghost var prior := cpu.mem[..];
      var exn := cpu.PokeUw(ph.vaddr + i, 0);
      PartialNext(cpu.codec, before, prior, cpu.mem[..], ph, image, i);
      i := i + 4;
    }
  }

  /** The first `n` bytes of the segment are in place and nothing else has changed. */
  ghost predicate Partial(c: Codec, before: Ram, now: Ram, ph: Phdr, image: seq<Byte>, n: nat)
    requires ph.ptype == PT_LOAD && n <= ph.memsz
    requires n > 0 ==> ph.vaddr % 4 == 0 && ph.offset + ph.filesz <= |image| && ph.filesz % 4 == 0
  {
    && |now| == |before|
    && forall k :: 0 <= k < |now| ==>
         now[k] == if ph.vaddr <= 4 * k < ph.vaddr + n then SegmentWord(c, ph, image, k) else before[k]
  }

  lemma PartialNext(c: Codec, before: Ram, prior: Ram, now: Ram, ph: Phdr, image: seq<Byte>, n: nat)
    requires ph.ptype == PT_LOAD && ph.vaddr % 4 == 0 && ph.offset + ph.filesz <= |image| && ph.filesz % 4 == 0
    requires n % 4 == 0 && n + 4 <= ph.memsz && Partial(c, before, prior, ph, image, n)
    requires (ph.vaddr + n) / 4 < |prior|
    requires now == prior[(ph.vaddr + n) / 4 := SegmentWord(c, ph, image, (ph.vaddr + n) / 4)]
    ensures Partial(c, before, now, ph, image, n + 4)
  {
    hide SegmentWord;
    var j := (ph.vaddr + n) / 4;
    assert 4 * j == ph.vaddr + n;
  }

  method LoadAll(cpu: C.Cpu, phs: seq<Phdr>, image: seq<Byte>) returns (status: Status)
    requires cpu.Valid()
    modifies cpu.mem
    ensures cpu.Valid()
    ensures match LoadSegments(cpu.codec, old(cpu.mem[..]), MemSize(cpu.mem[..]) - cpu.stksz, phs, image)
            case Loaded(mem) => status == DONE && cpu.mem[..] == mem
            case LoadFailed(mem) => status == FAILED && cpu.mem[..] == mem
            case LoadUndefined => status == STRAY
  {
    hide Overlay, SegmentChecks, Placed;
    ghost var limit := MemSize(cpu.mem[..]) - cpu.stksz;
    ghost var all := LoadSegments(cpu.codec, cpu.mem[..], limit, phs, image);
    for i := 0 to |phs|
      invariant cpu.Valid()
      invariant all == LoadSegments(cpu.codec, cpu.mem[..], limit, phs[i..], image)
    {
      assert phs[i..][0] == phs[i] && phs[i..][1..] == phs[i + 1..];
      if phs[i].ptype == PT_LOAD {
        status := LoadSegment(cpu, image, phs[i]);
        if status != DONE {
          return;
        }
      } else if phs[i].ptype != PT_NULL {
        return FAILED;
      }
    }
    status := DONE;
  }

  // ----- Symbols -----

  /** Compares `name`, followed by a zero, with the zero-terminated string at `p`. */
  method Sequal(name: seq<Byte>, image: seq<Byte>, p: nat) returns (equal: bool)
    requires 0 !in name
    requires exists e :: p <= e < |image| && image[e] == 0
    ensures equal <==> CString(image, p) == name
  {
    var i := 0;
    ghost var e :| p <= e < |image| && image[e] == 0;
    while (if i < |name| then name[i] else 0) == image[p + i]
      invariant 0 <= i <= |name| && p + i <= e
      invariant CString(image, p) == name[..i] + CString(image, p + i)
      decreases |name| - i
    {
      if image[p + i] == 0 {
        assert name[..i] == name;
        return true;
      }
      assert name[..i + 1] == name[..i] + [name[i]];
      i := i + 1;
    }
    CStringDiffers(name, image, p, i);
    equal := false;
  }

  lemma CStringDiffers(name: seq<Byte>, image: seq<Byte>, p: nat, i: nat)
    requires i <= |name| && p + i < |image| && 0 !in name
    requires CString(image, p) == name[..i] + CString(image, p + i)
    requires (if i < |name| then name[i] else 0) != image[p + i]
    ensures CString(image, p) != name
  {
    var rest := CString(image, p + i);
    if image[p + i] == 0 {
      assert |CString(image, p)| == i < |name|;
    } else {
      assert CString(image, p)[i] == rest[0] == image[p + i];
      if i < |name| {
        assert name[i] != CString(image, p)[i];
      }
    }
  }

  /** The position of string `ndx`, if it ends inside its section. */
  method FindString(image: seq<Byte>, sh: Shdr, ndx: nat) returns (at: Lookup<nat>)
    ensures match GetString(image, sh, ndx)
            case Found(_) => at == Found(sh.offset + ndx) && Terminated(image, sh, ndx)
            case Missing => at == Missing
            case Undefined => at == Undefined
  {
    if sh.kind != SHT_STRTAB || ndx >= sh.size || sh.offset >= |image| {
      return Missing;
    }
    for i := ndx to sh.size
      invariant sh.offset + i <= |image| || i == ndx
      invariant forall p :: sh.offset + ndx <= p < sh.offset + i ==> image[p] != 0
    {
      if sh.offset + i >= |image| {
        return Undefined;
      }
      if image[sh.offset + i] == 0 {
        return Found(sh.offset + ndx);
      }
    }
    at := Missing;
  }

  method FindSymbol(t: Tables, image: seq<Byte>, name: seq<Byte>) returns (sym: Lookup<Sym>)
    requires 0 !in name
    ensures sym == Elf.FindSymbol(t, image, name)
  {
    hide GetSym, GetString;
    if t.symtab.entsize == 0 {
      return Undefined;
    }
    var n := Count(t);
    if ToWord(t.symtab.offset + t.symtab.size) > |image| {
      return Missing;
    }
    for i := 0 to n
      invariant FindFrom(t, image, name, 0) == FindFrom(t, image, name, i)
    {
      var s := GetSym(t, image, i);
      if !s.Found? {
        return s;
      }
      if s.value.bind == STB_GLOBAL {
        var at := FindString(image, t.strings, s.value.name);
        if at.Missing? {
          return Missing;
        }
        if at.Undefined? {
          return Undefined;
        }
        StringFound(image, t.strings, s.value.name);
        var equal := Sequal(name, image, at.value);
        if equal {
          return s;
        }
      }
    }
    sym := Missing;
  }

  lemma StringFound(image: seq<Byte>, sh: Shdr, ndx: nat)
    requires GetString(image, sh, ndx).Found?
    ensures GetString(image, sh, ndx) == Found(CString(image, sh.offset + ndx))
    ensures exists e :: sh.offset + ndx <= e < |image| && image[e] == 0
  {
  }

  /** A global symbol of no type, of an object or of a function, at or below `addr`. */
  predicate Eligible(sym: Sym, addr: Word) {
    sym.bind == 1 && (sym.kind == 0 || sym.kind == 1 || sym.kind == 2) && sym.value <= addr
  }

  /** Entry `j` can be read and is a global symbol at or below `addr`. */
  ghost predicate EligibleAt(t: Tables, image: seq<Byte>, addr: Word, j: nat) {
    GetSym(t, image, j).Found? && Eligible(GetSym(t, image, j).value, addr)
  }

  ghost function ValueAt(t: Tables, image: seq<Byte>, j: nat): Word
    requires GetSym(t, image, j).Found?
  {
    GetSym(t, image, j).value.value
  }

  /** The search gets past the first `k` entries: all can be read and none is a global symbol at `addr`. */
  ghost predicate Scanned(t: Tables, image: seq<Byte>, addr: Word, k: nat) {
    forall j :: 0 <= j < k ==>
      GetSym(t, image, j).Found? && (EligibleAt(t, image, addr, j) ==> ValueAt(t, image, j) != addr)
  }

  /** The two tests before the search. */
  predicate Searched(t: Tables, image: seq<Byte>, mem: Ram, addr: Word) {
    ToWord(t.symtab.offset + t.symtab.size) <= |image| && addr < MemSize(mem)
  }

  /** The index of the nearest global symbol at or below `addr`, the first of those at that address. A
      symbol at `addr` itself ends the search; before that, an unreadable entry makes it fail, and one
      that reaches past the file is undefined. */
  method FindAddress(cpu: C.Cpu, t: Tables, image: seq<Byte>, addr: Word) returns (ret: Lookup<nat>)
    requires cpu.Valid()
    ensures t.symtab.entsize == 0 ==> ret == Undefined
    ensures t.symtab.entsize > 0 && !Searched(t, image, cpu.mem[..], addr) ==> ret == Missing
    ensures t.symtab.entsize > 0 && Searched(t, image, cpu.mem[..], addr) ==>
              match ret
              case Found(i) =>
                && i < Count(t) && EligibleAt(t, image, addr, i)
                && (Scanned(t, image, addr, Count(t)) || (Scanned(t, image, addr, i) && ValueAt(t, image, i) == addr))
                && (forall j :: 0 <= j < Count(t) && EligibleAt(t, image, addr, j) ==>
                      ValueAt(t, image, j) <= ValueAt(t, image, i))
                && (forall j :: 0 <= j < i && EligibleAt(t, image, addr, j) ==>
                      ValueAt(t, image, j) < ValueAt(t, image, i))
              case Missing =>
                || (exists k :: 0 <= k < Count(t) && Scanned(t, image, addr, k) && GetSym(t, image, k).Missing?)
                || (Scanned(t, image, addr, Count(t)) && forall j :: 0 <= j < Count(t) ==> !EligibleAt(t, image, addr, j))
              case Undefined =>
                exists k :: 0 <= k < Count(t) && Scanned(t, image, addr, k) && GetSym(t, image, k).Undefined?
  {
    hide GetSym;
    ret := Missing;
    if t.symtab.entsize == 0 {
      return Undefined;
    }
    var n := Count(t);
    var min := 0xFFFF_FFFF;
    if ToWord(t.symtab.offset + t.symtab.size) > |image| || addr >= 4 * cpu.mem.Length {
      return;
    }
    for i := 0 to n
      invariant ret.Missing? ==> min == 0xFFFF_FFFF
      invariant ret.Missing? || (ret.Found? && ret.value < i)
      invariant Scanned(t, image, addr, i)
      invariant ret.Found? ==> EligibleAt(t, image, addr, ret.value) && min == addr - ValueAt(t, image, ret.value)
      invariant forall j :: 0 <= j < i && EligibleAt(t, image, addr, j) ==> min <= addr - ValueAt(t, image, j)
      invariant ret.Found? ==>
                  forall j :: 0 <= j < ret.value && EligibleAt(t, image, addr, j) ==>
                    ValueAt(t, image, j) < ValueAt(t, image, ret.value)
    {
      var s := GetSym(t, image, i);
      if s.Missing? {
        return Missing;
      }
      if s.Undefined? {
        return Undefined;
      }
      var sym := s.value;
      if sym.bind != STB_GLOBAL || sym.kind >= STT_SECTION {
        continue;
      }
      if sym.value <= addr {
        var diff := addr - sym.value;
        if diff < min {
          min := diff;
          ret := Found(i);
          if diff == 0 {
            return;
          }
        }
      }
    }
  }

  // ----- Start -----

  /** Loads the image and sets up the registers for the program's start. */
  method Load(cpu: C.Cpu, elf: ElfFile, image: seq<Byte>) returns (status: Status)
    requires cpu.Valid()
    modifies cpu.mem, cpu.r, cpu`pc, cpu`brk
    ensures cpu.Valid()
    ensures match ElfLoad(cpu.codec, old(cpu.Snapshot()), cpu.stksz, elf, image)
            case Started(st, brk) => status == DONE && cpu.Snapshot() == st && cpu.brk == brk
            case NotStarted => status == FAILED && cpu.CoreState() == old(cpu.CoreState())
            case StartUndefined => status == STRAY && cpu.CoreState() == old(cpu.CoreState())
  {
    hide LoadSegments, Elf.FindSymbol;
    if !elf.headerOk {
      return FAILED;
    }
    status := LoadAll(cpu, elf.phdrs, image);
    if status != DONE {
      return;
    }
    var limit := 4 * cpu.mem.Length - cpu.stksz;
    if elf.tables.None? || elf.entry >= limit {
      return FAILED;
    }
    var gp := FindSymbol(elf.tables.value, image, GP_NAME);
    if !gp.Found? || !Usable(gp.value, limit) {
      return if gp.Undefined? then STRAY else FAILED;
    }
    var end := FindSymbol(elf.tables.value, image, END_NAME);
    if !end.Found? || !Usable(end.value, limit) {
      return if end.Undefined? then STRAY else FAILED;
    }
    if elf.entry < LOWBASE {
      return FAILED;
    }
    cpu.brk := end.value.value;
    cpu.pc := elf.entry;
    cpu.r[28] := gp.value.value;
    cpu.r[29] := 4 * cpu.mem.Length - 4;
    cpu.r[31] := 0;
  }
}
