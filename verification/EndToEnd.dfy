/** The whole chain: encrypt a file, load it with the RC5 hooks, and run it. */
module EndToEnd {
  import opened Bits
  import opened Memory
  import opened Machine
  import opened Simulation
  import opened Rc5
  import opened KeySchedule
  import opened Elf
  import opened ElfCrypt
  import opened Footprint
  import P = StepProperties
  import S = Session

  /** The files whose encryption keeps what the loader reads besides segment data: the file ranges of the
      segments are apart from each other, from the string table, from a symbol table that lies in the
      file and has entries of full size, and from everything the headers were parsed from. */
  ghost predicate Suitable(elf: ElfFile, image: seq<Byte>) {
    && PairwiseDisjoint(elf.phdrs)
    && (forall e :: e in elf.records ==> AllDisjoint(elf.phdrs, e.offset, e.size))
    && (elf.tables.Some? ==> TablesApart(elf.phdrs, elf.tables.value, |image|))
  }

  predicate TablesApart(phs: seq<Phdr>, t: Tables, elfsz: nat) {
    && AllDisjoint(phs, t.strings.offset, t.strings.size)
    && AllDisjoint(phs, t.symtab.offset, t.symtab.size)
    && TableReadable(t, elfsz)
  }

  predicate TableReadable(t: Tables, elfsz: nat) {
    && t.symtab.entsize >= SYM_SIZE
    && t.symtab.offset + t.symtab.size <= elfsz && t.symtab.offset + t.symtab.size < WORD
  }

  /** The bytes of a range of the file are the same in both. */
  ghost predicate Untouched(image: seq<Byte>, image': seq<Byte>, off: nat, n: nat) {
    |image'| == |image| && forall q :: off <= q < off + n && q < |image| ==> image'[q] == image[q]
  }

  // ----- Loading -----

  lemma RestSuitable(phs: seq<Phdr>, n: nat)
    requires phs != [] && AllInFile(phs, n)
    ensures AllInFile(phs[1..], n) && InFile(phs[0], n)
  {
  }

  /** Word `i` of the segment's file data is encrypted in `image'`. */
  ghost predicate WordEncrypted(s: Table, ph: Phdr, image: seq<Byte>, image': seq<Byte>, i: nat)
    requires InFile(ph, |image|) && |image'| == |image| && i < Blocks(ph)
  {
    FileWord(image', ph.offset + 4 * i) == EncryptWord(s, FileWord(image, ph.offset + 4 * i))
  }

  /** The words of `image'` are those of `image`, encrypted, throughout the segments. */
  ghost predicate SegmentsEncrypted(s: Table, phs: seq<Phdr>, image: seq<Byte>, image': seq<Byte>)
    requires AllInFile(phs, |image|) && |image'| == |image|
  {
    forall k, i: nat :: 0 <= k < |phs| && i < Blocks(phs[k]) ==> WordEncrypted(s, phs[k], image, image', i)
  }

  lemma SegmentWordSame(s: Table, ph: Phdr, image: seq<Byte>, image': seq<Byte>, k: nat)
    requires InFile(ph, |image|) && |image'| == |image| && SegmentsEncrypted(s, [ph], image, image')
    requires ph.vaddr % 4 == 0 && ph.offset + ph.filesz <= |image| && ph.filesz % 4 == 0 && Covers(ph, k)
    ensures Rc5Codec(s).dec(4 * k, SegmentWord(Rc5Codec(s), ph, image', k)) ==
            SegmentWord(IDENTITY, ph, image, k)
  {
    hide EncryptWord, DecryptWord, FileWord;
    if 4 * k < ph.vaddr + ph.filesz {
      var i := k - ph.vaddr / 4;
      assert 4 * k - ph.vaddr == 4 * i;
      assert WordEncrypted(s, [ph][0], image, image', i);
      WordsPermuted(s, FileWord(image, ph.offset + 4 * i));
    } else {
      WordsPermuted(s, 0);
    }
  }

  lemma OverlaySame(s: Table, ph: Phdr, image: seq<Byte>, image': seq<Byte>, mem: Ram, mem': Ram, limit: nat)
    requires InFile(ph, |image|) && |image'| == |image| && SegmentsEncrypted(s, [ph], image, image')
    requires SameGuestWords(IDENTITY, mem, Rc5Codec(s), mem')
    requires Loadable(mem, limit, ph, image)
    ensures SameGuestWords(IDENTITY, Overlay(IDENTITY, mem, limit, ph, image),
                           Rc5Codec(s), Overlay(Rc5Codec(s), mem', limit, ph, image'))
  {
    hide SegmentWord, EncryptWord, DecryptWord;
    var o, o' := Overlay(IDENTITY, mem, limit, ph, image), Overlay(Rc5Codec(s), mem', limit, ph, image');
    forall k | LOWBASE_INDEX <= k < |o|
      ensures IDENTITY.dec(4 * k, o[k]) == Rc5Codec(s).dec(4 * k, o'[k])
    {
      assert IDENTITY.dec(4 * k, mem[k]) == Rc5Codec(s).dec(4 * k, mem'[k]);
      if Covers(ph, k) {
        SegmentWordSame(s, ph, image, image', k);
      }
    }
  }

  /** Loading the encrypted file under the RC5 hooks shows the guest what loading the plain file does. */
  lemma {:induction false} LoadsSameWords(s: Table, phs: seq<Phdr>, image: seq<Byte>, image': seq<Byte>,
                                          mem: Ram, mem': Ram, limit: nat)
    requires AllInFile(phs, |image|) && |image'| == |image|
    requires SegmentsEncrypted(s, phs, image, image')
    requires SameGuestWords(IDENTITY, mem, Rc5Codec(s), mem') && limit <= MemSize(mem)
    ensures var r, r' := LoadSegments(IDENTITY, mem, limit, phs, image),
                         LoadSegments(Rc5Codec(s), mem', limit, phs, image');
            match (r, r')
            case (Loaded(a), Loaded(b)) => SameGuestWords(IDENTITY, a, Rc5Codec(s), b)
            case (LoadFailed(a), LoadFailed(b)) => SameGuestWords(IDENTITY, a, Rc5Codec(s), b)
            case (LoadUndefined, LoadUndefined) => true
            case _ => false
    decreases |phs|
  {
    hide SameGuestWords, Overlay, FileWord, EncryptWord, Rc5Codec, SegmentChecks, Placed, InFile, SegmentsEncrypted;
    assert |mem| == |mem'| by {
      SameSize(IDENTITY, mem, Rc5Codec(s), mem');
    }
    if phs != [] {
      RestSuitable(phs, |image|);
      RestEncrypted(s, phs, image, image');
      if phs[0].ptype == PT_NULL {
        LoadsSameWords(s, phs[1..], image, image', mem, mem', limit);
      } else if phs[0].ptype == PT_LOAD && Loadable(mem, limit, phs[0], image) {
        OverlaySame(s, phs[0], image, image', mem, mem', limit);
        LoadsSameWords(s, phs[1..], image, image', Overlay(IDENTITY, mem, limit, phs[0], image),
                       Overlay(Rc5Codec(s), mem', limit, phs[0], image'), limit);
      }
    }
  }

  lemma SameSize(c: Codec, mem: Ram, d: Codec, mem': Ram)
    requires SameGuestWords(c, mem, d, mem')
    ensures |mem| == |mem'|
  {
  }

  lemma RestEncrypted(s: Table, phs: seq<Phdr>, image: seq<Byte>, image': seq<Byte>)
    requires phs != [] && AllInFile(phs, |image|) && |image'| == |image|
    requires SegmentsEncrypted(s, phs, image, image')
    ensures AllInFile(phs[1..], |image|) && InFile(phs[0], |image|)
    ensures SegmentsEncrypted(s, phs[1..], image, image') && SegmentsEncrypted(s, [phs[0]], image, image')
  {
    hide FileWord, EncryptWord;
    forall k, i: nat | 0 <= k < |phs[1..]| && i < Blocks(phs[1..][k])
      ensures WordEncrypted(s, phs[1..][k], image, image', i)
    {
      assert WordEncrypted(s, phs[k + 1], image, image', i);
    }
  }

  // ----- Symbols -----

  lemma {:induction false} CStringSame(image: seq<Byte>, image': seq<Byte>, p: nat, end: nat)
    requires |image| == |image'| && p <= end < |image| && image[end] == 0
    requires forall q :: p <= q <= end ==> image'[q] == image[q]
    ensures CString(image', p) == CString(image, p)
    decreases end - p
  {
    if image[p] != 0 {
      CStringSame(image, image', p + 1, end);
    }
  }

  /** Strings in an untouched string table read the same. */
  lemma StringSame(sh: Shdr, image: seq<Byte>, image': seq<Byte>, ndx: nat)
    requires Untouched(image, image', sh.offset, sh.size)
    ensures GetString(image, sh, ndx) == GetString(image', sh, ndx)
  {
    hide CString;
    var from, to := sh.offset + ndx, sh.offset + sh.size;
    assert Terminated(image, sh, ndx) <==> Terminated(image', sh, ndx) by {
      if p :| from <= p < to && p < |image| && image[p] == 0 {
        assert image'[p] == 0;
      }
      if p :| from <= p < to && p < |image'| && image'[p] == 0 {
        assert image[p] == 0;
      }
    }
    if Terminated(image, sh, ndx) {
      var end :| from <= end < to && end < |image| && image[end] == 0;
      CStringSame(image, image', from, end);
    }
  }

  /** Entries of an untouched symbol table read the same. */
  lemma EntrySame(t: Tables, image: seq<Byte>, image': seq<Byte>, i: nat)
    requires TableReadable(t, |image|) && Untouched(image, image', t.symtab.offset, t.symtab.size) && i < Count(t)
    ensures GetSym(t, image, i) == GetSym(t, image', i)
  {
    hide FileWord;
    if t.symtab.kind == SHT_SYMTAB {
      EntryPresent(t, image, i);
      EntryPresent(t, image', i);
      var o := t.symtab.offset + i * t.symtab.entsize;
      SameFileWord(image', image, o);
      SameFileWord(image', image, o + 4);
    }
  }

  lemma {:induction false} FindFromSame(t: Tables, image: seq<Byte>, image': seq<Byte>, name: seq<Byte>, i: nat)
    requires TableReadable(t, |image|) && Untouched(image, image', t.symtab.offset, t.symtab.size)
    requires Untouched(image, image', t.strings.offset, t.strings.size)
    ensures FindFrom(t, image, name, i) == FindFrom(t, image', name, i)
    decreases Count(t) - i
  {
    hide GetSym, GetString;
    if i < Count(t) {
      EntrySame(t, image, image', i);
      var entry := GetSym(t, image, i);
      if entry.Found? {
        StringSame(t.strings, image, image', entry.value.name);
      }
      FindFromSame(t, image, image', name, i + 1);
    }
  }

  // ----- The chain -----

  /** An encrypted file has its segments encrypted; its headers and tables are untouched. */
  lemma CryptFileResult(s: Table, elf: ElfFile, image: seq<Byte>)
    requires Suitable(elf, image) && CryptFile(s, image, elf.phdrs).Encrypted?
    ensures AllInFile(elf.phdrs, |image|)
    ensures var image' := CryptFile(s, image, elf.phdrs).image;
            && |image'| == |image| && SegmentsEncrypted(s, elf.phdrs, image, image')
            && (forall e :: e in elf.records ==> Untouched(image, image', e.offset, e.size))
            && (elf.tables.Some? ==>
                  var t := elf.tables.value;
                  && Untouched(image, image', t.symtab.offset, t.symtab.size)
                  && Untouched(image, image', t.strings.offset, t.strings.size))
  {
    hide FileWord, EncryptWord, CryptSegments;
    var image', phs := CryptFile(s, image, elf.phdrs).image, elf.phdrs;
    forall k, i: nat | 0 <= k < |phs| && i < Blocks(phs[k])
      ensures WordEncrypted(s, phs[k], image, image', i)
    {
      CryptSegmentsWords(s, image, phs, k, i);
    }
    forall off: nat, n: nat | AllDisjoint(phs, off, n)
      ensures Untouched(image, image', off, n)
    {
      forall q | off <= q < off + n && q < |image|
        ensures image'[q] == image[q]
      {
        CryptSegmentsOutside(s, image, phs, off, n, q);
      }
    }
  }

  /** Loading the encrypted file with the key starts the program exactly when loading the plain file
      without one does, and then in the same registers with the same guest words. */
  lemma StartsSame(s: Table, elf: ElfFile, image: seq<Byte>, m: State, m': State, stksz: nat)
    requires Suitable(elf, image) && CryptFile(s, image, elf.phdrs).Encrypted?
    requires Related(IDENTITY, m, Rc5Codec(s), m') && stksz <= MemSize(m.mem)
    ensures var image' := CryptFile(s, image, elf.phdrs).image;
            && |image'| == |image|
            && match (ElfLoad(IDENTITY, m, stksz, elf, image), ElfLoad(Rc5Codec(s), m', stksz, elf, image'))
               case (Started(st, brk), Started(st', brk')) => brk == brk' && Related(IDENTITY, st, Rc5Codec(s), st')
               case (NotStarted, NotStarted) => true
               case (StartUndefined, StartUndefined) => true
               case _ => false
  {
    hide FileWord, EncryptWord, SegmentsEncrypted, CryptFile, Rc5Codec, FindFrom, LoadSegments, Untouched, AllDisjoint;
    CryptFileResult(s, elf, image);
    var image' := CryptFile(s, image, elf.phdrs).image;
    LoadsSameWords(s, elf.phdrs, image, image', m.mem, m'.mem, MemSize(m.mem) - stksz);
    if elf.tables.Some? {
      FindFromSame(elf.tables.value, image, image', GP_NAME, 0);
      FindFromSame(elf.tables.value, image, image', END_NAME, 0);
    }
  }

  /** The memory a plain one is related to: every word encrypted. */
  function EncryptRam(s: Table, mem: Ram): Ram {
    seq(|mem|, k requires 0 <= k < |mem| => EncryptWord(s, mem[k]))
  }

  /** So every plain machine has a related encrypted one. */
  lemma EncryptedCounterpart(s: Table, m: State)
    ensures Related(IDENTITY, m, Rc5Codec(s), m.(mem := EncryptRam(s, m.mem)))
  {
    hide EncryptWord, DecryptWord;
    forall k | LOWBASE_INDEX <= k < |m.mem|
      ensures Rc5Codec(s).dec(4 * k, EncryptRam(s, m.mem)[k]) == m.mem[k]
    {
      WordsPermuted(s, m.mem[k]);
    }
  }

  /** Where a session starts, with host state `h`. */
  function FirstTick<H>(st: State, h: H): S.Loop<H> {
    S.Loop(st, h, None, S.Executing)
  }

  function SessionFrom<H>(c: Codec, svc: S.Services<H>, st: State, h: H, n: nat): S.Tick<H> {
    S.Session(c, svc, FirstTick(st, h), n)
  }

  /** End to end: for every key, every suitable file and every number of steps, encrypting the file,
      loading it with the RC5 hooks and running it gives the same exceptions, registers and guest words
      as loading and running the plain file; and so does every session, whatever the services do. */
  lemma EncryptedRunIsPlainRun<H>(key: Key, elf: ElfFile, image: seq<Byte>, m: State, m': State, stksz: nat, n: nat,
                                  svc: S.Services<H>, h: H)
    requires Suitable(elf, image) && CryptFile(Expand(key), image, elf.phdrs).Encrypted?
    requires Related(IDENTITY, m, Rc5Codec(Expand(key)), m') && stksz <= MemSize(m.mem)
    requires ElfLoad(IDENTITY, m, stksz, elf, image).Started?
    ensures var c := Rc5Codec(Expand(key)); var image' := CryptFile(Expand(key), image, elf.phdrs).image;
            var (start, start') := (ElfLoad(IDENTITY, m, stksz, elf, image), ElfLoad(c, m', stksz, elf, image'));
            && |image'| == |image| && start'.Started? && start'.brk == start.brk
            && RelatedOutcomes(IDENTITY, Run(IDENTITY, start.st, n), c, Run(c, start'.st, n))
            && S.RelatedTicks(IDENTITY, SessionFrom(IDENTITY, svc, start.st, h, n),
                              c, SessionFrom(c, svc, start'.st, h, n))
  {
    hide ElfLoad, CryptFile, Rc5Codec, Expand, Run, S.Session, S.RelatedTicks;
    var s := Expand(key);
    StartsSame(s, elf, image, m, m', stksz);
    Rc5CodecSound(s);
    var image' := CryptFile(s, image, elf.phdrs).image;
    var st, st' := ElfLoad(IDENTITY, m, stksz, elf, image).st, ElfLoad(Rc5Codec(s), m', stksz, elf, image').st;
    LockStep(IDENTITY, st, Rc5Codec(s), st', n);
    S.SessionsSame(IDENTITY, svc, FirstTick(st, h), Rc5Codec(s), FirstTick(st', h), n);
  }

  // ----- Safety of loaded programs -----

  /** Any program the loader starts on a reset CPU, under any hooks: no run of any length ends in the
      internal-error exception, writes $0, leaves a delay slot that does not follow a jump or branch, or
      changes a word below LOWBASE from what it was before loading. */
  lemma LoadedProgramIsSafe(c: Codec, elf: ElfFile, image: seq<Byte>, mem: Ram, stksz: nat, n: nat)
    requires stksz <= MemSize(mem)
    requires ElfLoad(c, State(RESET_CORE, mem), stksz, elf, image).Started?
    ensures var o := Run(c, ElfLoad(c, State(RESET_CORE, mem), stksz, elf, image).st, n);
            && o.exn != ABORT && o.st.core.g.r[0] == 0
            && P.SlotFollowsTransfer(c, o.st)
            && SameControlBlock(mem, o.st.mem)
  {
    hide ElfLoad, Run, IsFirstMatch;
    StartsClean(c, State(RESET_CORE, mem), stksz, elf, image);
    var st := ElfLoad(c, State(RESET_CORE, mem), stksz, elf, image).st;
    P.NoAbort(c, st, n);
    P.SlotInvariant(c, st, n);
    P.ControlBlockIsolated(c, st, n);
  }

  // ----- Without assumptions on uninitialised memory -----

  /** What can be seen of a run without looking at memory. */
  datatype Observation = Refused | Unspecified | Observed(exn: Exn, core: Core)

  /** Loads the file into a machine in state `core` with memory `mem`, and runs at most `n` steps. */
  ghost function Observe(c: Codec, elf: ElfFile, image: seq<Byte>, core: Core, mem: Ram, stksz: nat, n: nat): Observation
    requires stksz <= MemSize(mem)
  {
    match ElfLoad(c, State(core, mem), stksz, elf, image)
    case NotStarted => Refused
    case StartUndefined => Unspecified
    case Started(st, _) => var o := Run(c, st, n); Observed(o.exn, o.st.core)
  }

  /** The plain program's run is determined by its file: it does not depend on what memory held before. */
  ghost predicate FileDetermined(elf: ElfFile, image: seq<Byte>, core: Core, size: nat, stksz: nat, n: nat)
    requires stksz <= 4 * size
  {
    forall a: Ram, b: Ram :: |a| == size && |b| == size ==>
      Observe(IDENTITY, elf, image, core, a, stksz, n) == Observe(IDENTITY, elf, image, core, b, stksz, n)
  }

  /** The plain memory that shows the guest what `mem` shows it under the cipher. */
  function DecryptRam(s: Table, mem: Ram): Ram {
    seq(|mem|, k requires 0 <= k < |mem| => DecryptWord(s, mem[k]))
  }

  lemma DecryptedCounterpart(s: Table, core: Core, mem: Ram)
    ensures Related(IDENTITY, State(core, DecryptRam(s, mem)), Rc5Codec(s), State(core, mem))
  {
    hide DecryptWord, EncryptWord;
  }

  /** For such a program the encrypted run is the plain run whatever the two memories held before, for
      every key: nothing is assumed of uninitialised memory. */
  lemma EncryptedRunFromAnyMemory(key: Key, elf: ElfFile, image: seq<Byte>, core: Core, mem: Ram, mem': Ram,
                                  stksz: nat, n: nat)
    requires Suitable(elf, image) && CryptFile(Expand(key), image, elf.phdrs).Encrypted?
    requires |mem| == |mem'| && stksz <= MemSize(mem)
    requires FileDetermined(elf, image, core, |mem|, stksz, n)
    ensures var image' := CryptFile(Expand(key), image, elf.phdrs).image;
            && |image'| == |image|
            && Observe(Rc5Codec(Expand(key)), elf, image', core, mem', stksz, n) ==
               Observe(IDENTITY, elf, image, core, mem, stksz, n)
  {
    hide ElfLoad, CryptFile, Rc5Codec, Expand, Run;
    var s := Expand(key);
    var seen := DecryptRam(s, mem');
    DecryptedCounterpart(s, core, mem');
    StartsSame(s, elf, image, State(core, seen), State(core, mem'), stksz);
    Rc5CodecSound(s);
    var image' := CryptFile(s, image, elf.phdrs).image;
    var start, start' := ElfLoad(IDENTITY, State(core, seen), stksz, elf, image),
                         ElfLoad(Rc5Codec(s), State(core, mem'), stksz, elf, image');
    if start.Started? {
      LockStep(IDENTITY, start.st, Rc5Codec(s), start'.st, n);
    }
    assert Observe(IDENTITY, elf, image, core, seen, stksz, n) == Observe(IDENTITY, elf, image, core, mem, stksz, n);
  }

  /** The condition is exact: encrypted and plain runs agree over all memories only for such programs. */
  lemma FileDeterminedIff(key: Key, elf: ElfFile, image: seq<Byte>, core: Core, size: nat, stksz: nat, n: nat)
    requires Suitable(elf, image) && CryptFile(Expand(key), image, elf.phdrs).Encrypted?
    requires LOWBASE_INDEX < size < 0x4000_0000 && stksz <= 4 * size
    ensures FileDetermined(elf, image, core, size, stksz, n) <==>
            forall a: Ram, b: Ram :: |a| == size && |b| == size ==>
              Observe(Rc5Codec(Expand(key)), elf, CryptFile(Expand(key), image, elf.phdrs).image, core, b, stksz, n) ==
              Observe(IDENTITY, elf, image, core, a, stksz, n)
  {
    hide Observe, CryptFile, Rc5Codec, Expand;
    if FileDetermined(elf, image, core, size, stksz, n) {
      forall a: Ram, b: Ram | |a| == size && |b| == size
        ensures Observe(Rc5Codec(Expand(key)), elf, CryptFile(Expand(key), image, elf.phdrs).image, core, b, stksz, n) ==
                Observe(IDENTITY, elf, image, core, a, stksz, n)
      {
        EncryptedRunFromAnyMemory(key, elf, image, core, a, b, stksz, n);
      }
    } else {
      var a: Ram, b: Ram :| |a| == size && |b| == size &&
        Observe(IDENTITY, elf, image, core, a, stksz, n) != Observe(IDENTITY, elf, image, core, b, stksz, n);
    }
  }

  // ----- Programs that read only what was loaded or written -----

  /** The bytes of the loaded segments. */
  function LoadedBytes(phs: seq<Phdr>): set<nat> {
    if phs == [] then {}
    else (if phs[0].ptype == PT_LOAD then Bytes(phs[0].vaddr, phs[0].vaddr + phs[0].memsz) else {}) + LoadedBytes(phs[1..])
  }

  lemma {:induction false} LoadedByteCovered(phs: seq<Phdr>, b: nat)
    requires b in LoadedBytes(phs)
    ensures exists i :: 0 <= i < |phs| && phs[i].ptype == PT_LOAD && phs[i].vaddr <= b < phs[i].vaddr + phs[i].memsz
    decreases |phs|
  {
    if phs[0].ptype == PT_LOAD && b in Bytes(phs[0].vaddr, phs[0].vaddr + phs[0].memsz) {
      assert phs[0].vaddr <= b;
    } else {
      LoadedByteCovered(phs[1..], b);
      var i :| 0 <= i < |phs[1..]| && phs[1..][i].ptype == PT_LOAD &&
               phs[1..][i].vaddr <= b < phs[1..][i].vaddr + phs[1..][i].memsz;
      assert phs[1..][i] == phs[i + 1];
    }
  }

  lemma LoadedWordAgrees(phs: seq<Phdr>, image: seq<Byte>, mem: Ram, mem': Ram, limit: nat, b: nat)
    requires |mem| == |mem'| && limit <= MemSize(mem) && b in LoadedBytes(phs) && GuestByte(mem, b)
    requires LoadSegments(IDENTITY, mem, limit, phs, image).Loaded?
    requires LoadSegments(IDENTITY, mem', limit, phs, image).Loaded?
    ensures LoadSegments(IDENTITY, mem, limit, phs, image).mem[b / 4] ==
            LoadSegments(IDENTITY, mem', limit, phs, image).mem[b / 4]
  {
    hide LoadSegments, SegmentWord, SegmentChecks, Placed, LoadedBytes;
    LoadedByteCovered(phs, b);
    var i :| 0 <= i < |phs| && phs[i].ptype == PT_LOAD && phs[i].vaddr <= b < phs[i].vaddr + phs[i].memsz;
    LoadsIff(IDENTITY, mem, limit, phs, image);
    assert Loadable(mem, limit, phs[i], image);
    LoadableAligned(mem, limit, phs[i], image, b);
    SegmentImage(IDENTITY, mem, limit, phs, image, b / 4);
    SegmentImage(IDENTITY, mem', limit, phs, image, b / 4);
  }

  /** Loading a file over two memories makes them agree on the loaded bytes. */
  lemma LoadsAgree(phs: seq<Phdr>, image: seq<Byte>, mem: Ram, mem': Ram, limit: nat)
    requires |mem| == |mem'| && limit <= MemSize(mem)
    requires LoadSegments(IDENTITY, mem, limit, phs, image).Loaded?
    ensures LoadSegments(IDENTITY, mem', limit, phs, image).Loaded?
    ensures SameOn(IDENTITY, LoadSegments(IDENTITY, mem, limit, phs, image).mem,
                   IDENTITY, LoadSegments(IDENTITY, mem', limit, phs, image).mem, LoadedBytes(phs))
  {
    hide LoadSegments, SegmentWord, SegmentChecks, Placed, LoadedBytes, ByteOf;
    LoadsIff(IDENTITY, mem, limit, phs, image);
    LoadsIff(IDENTITY, mem', limit, phs, image);
    forall b: nat {:trigger b in LoadedBytes(phs)} | b in LoadedBytes(phs) && GuestByte(mem, b)
      ensures LoadSegments(IDENTITY, mem, limit, phs, image).mem[b / 4] ==
              LoadSegments(IDENTITY, mem', limit, phs, image).mem[b / 4]
    {
      LoadedWordAgrees(phs, image, mem, mem', limit, b);
    }
  }

  lemma StartsAgree(elf: ElfFile, image: seq<Byte>, core: Core, mem: Ram, mem': Ram, stksz: nat)
    requires |mem| == |mem'| && stksz <= MemSize(mem)
    requires ElfLoad(IDENTITY, State(core, mem), stksz, elf, image).Started?
    ensures var start, start' := ElfLoad(IDENTITY, State(core, mem), stksz, elf, image),
                                 ElfLoad(IDENTITY, State(core, mem'), stksz, elf, image);
            && start'.Started? && start'.brk == start.brk
            && SameStateOn(IDENTITY, start.st, IDENTITY, start'.st, LoadedBytes(elf.phdrs))
  {
    hide LoadSegments, SymbolAddress, SameOn;
    LoadsAgree(elf.phdrs, image, mem, mem', MemSize(mem) - stksz);
  }

  lemma RelatedKeepsKnown(c: Codec, m: State, d: Codec, m': State, e: Codec, m'': State, known: set<nat>)
    requires SameStateOn(c, m, d, m', known) && Related(d, m', e, m'')
    ensures SameStateOn(c, m, e, m'', known)
  {
    hide ByteOf;
    forall b: nat {:trigger b in known} | b in known && GuestByte(m.mem, b)
      ensures ByteAt(d, m'.mem, b) == ByteAt(e, m''.mem, b)
    {
      HookPeekSame(d, m'.mem, e, m''.mem, b - b % 4);
    }
  }

  /** From any two memories, loading the plain file and loading the encrypted file with the key make the
      two machines agree on the loaded bytes. */
  lemma StartsKnown(s: Table, elf: ElfFile, image: seq<Byte>, core: Core, mem: Ram, mem': Ram, stksz: nat)
    requires Suitable(elf, image) && CryptFile(s, image, elf.phdrs).Encrypted?
    requires |mem| == |mem'| && stksz <= MemSize(mem)
    requires ElfLoad(IDENTITY, State(core, mem), stksz, elf, image).Started?
    ensures var start, start' := ElfLoad(IDENTITY, State(core, mem), stksz, elf, image),
                                 ElfLoad(Rc5Codec(s), State(core, mem'), stksz, elf, CryptFile(s, image, elf.phdrs).image);
            && start'.Started? && start'.brk == start.brk
            && SameStateOn(IDENTITY, start.st, Rc5Codec(s), start'.st, LoadedBytes(elf.phdrs))
  {
    hide ElfLoad, CryptFile, Rc5Codec, SameStateOn, Related, LoadedBytes;
    var seen := DecryptRam(s, mem');
    DecryptedCounterpart(s, core, mem');
    StartsAgree(elf, image, core, mem, seen, stksz);
    StartsSame(s, elf, image, State(core, seen), State(core, mem'), stksz);
    RelatedKeepsKnown(IDENTITY, ElfLoad(IDENTITY, State(core, mem), stksz, elf, image).st,
                      IDENTITY, ElfLoad(IDENTITY, State(core, seen), stksz, elf, image).st,
                      Rc5Codec(s), ElfLoad(Rc5Codec(s), State(core, mem'), stksz, elf, CryptFile(s, image, elf.phdrs).image).st,
                      LoadedBytes(elf.phdrs));
  }

  /** A plain run that reads no byte before the loader or the run itself has written it is, for every key,
      the run of the encrypted file: the same exception, the same registers and the same known bytes,
      whatever the two memories held before. */
  lemma CleanEncryptedRun(key: Key, elf: ElfFile, image: seq<Byte>, core: Core, mem: Ram, mem': Ram, stksz: nat, n: nat)
    requires Suitable(elf, image) && CryptFile(Expand(key), image, elf.phdrs).Encrypted?
    requires |mem| == |mem'| && stksz <= MemSize(mem)
    requires ElfLoad(IDENTITY, State(core, mem), stksz, elf, image).Started?
    requires CleanRun(IDENTITY, ElfLoad(IDENTITY, State(core, mem), stksz, elf, image).st, LoadedBytes(elf.phdrs), n)
    ensures var c := Rc5Codec(Expand(key)); var image' := CryptFile(Expand(key), image, elf.phdrs).image;
            var (start, start') := (ElfLoad(IDENTITY, State(core, mem), stksz, elf, image),
                                    ElfLoad(c, State(core, mem'), stksz, elf, image'));
            && |image'| == |image| && start'.Started? && start'.brk == start.brk
            && Run(IDENTITY, start.st, n).exn == Run(c, start'.st, n).exn
            && SameStateOn(IDENTITY, Run(IDENTITY, start.st, n).st, c, Run(c, start'.st, n).st,
                           KnownAfter(IDENTITY, start.st, LoadedBytes(elf.phdrs), n))
  {
    hide ElfLoad, CryptFile, Rc5Codec, Expand, Run, CleanRun, KnownAfter, SameStateOn, LoadedBytes;
    var s := Expand(key);
    StartsKnown(s, elf, image, core, mem, mem', stksz);
    CryptFileResult(s, elf, image);
    Rc5CodecSound(s);
    CleanRunsSame(IDENTITY, ElfLoad(IDENTITY, State(core, mem), stksz, elf, image).st, Rc5Codec(s),
                  ElfLoad(Rc5Codec(s), State(core, mem'), stksz, elf, CryptFile(s, image, elf.phdrs).image).st,
                  LoadedBytes(elf.phdrs), n);
  }

  /** The same for sessions: the same ending, host state, registers and known bytes. */
  lemma CleanEncryptedSession<H>(key: Key, elf: ElfFile, image: seq<Byte>, core: Core, mem: Ram, mem': Ram, stksz: nat,
                                 n: nat, svc: S.Services<H>, h: H)
    requires Suitable(elf, image) && CryptFile(Expand(key), image, elf.phdrs).Encrypted?
    requires |mem| == |mem'| && stksz <= MemSize(mem)
    requires ElfLoad(IDENTITY, State(core, mem), stksz, elf, image).Started?
    requires CleanSession(IDENTITY, svc, FirstTick(ElfLoad(IDENTITY, State(core, mem), stksz, elf, image).st, h),
                          LoadedBytes(elf.phdrs), n)
    ensures var c := Rc5Codec(Expand(key)); var image' := CryptFile(Expand(key), image, elf.phdrs).image;
            var (start, start') := (ElfLoad(IDENTITY, State(core, mem), stksz, elf, image),
                                    ElfLoad(c, State(core, mem'), stksz, elf, image'));
            && start'.Started? && start'.brk == start.brk
            && SameTickOn(IDENTITY, SessionFrom(IDENTITY, svc, start.st, h, n), c, SessionFrom(c, svc, start'.st, h, n),
                          KnownAfterSession(IDENTITY, svc, FirstTick(start.st, h), LoadedBytes(elf.phdrs), n))
  {
    hide ElfLoad, CryptFile, Rc5Codec, Expand, S.Session, CleanSession, KnownAfterSession, SameTickOn, LoadedBytes;
    var s := Expand(key);
    StartsKnown(s, elf, image, core, mem, mem', stksz);
    Rc5CodecSound(s);
    var st, st' := ElfLoad(IDENTITY, State(core, mem), stksz, elf, image).st,
                   ElfLoad(Rc5Codec(s), State(core, mem'), stksz, elf, CryptFile(s, image, elf.phdrs).image).st;
    CleanSessionsSame(IDENTITY, svc, FirstTick(st, h), Rc5Codec(s), FirstTick(st', h), LoadedBytes(elf.phdrs), n);
  }

  /** Such a run is determined by its file, as EncryptedRunFromAnyMemory asks. */
  lemma CleanIsFileDetermined(elf: ElfFile, image: seq<Byte>, core: Core, mem: Ram, stksz: nat, n: nat)
    requires stksz <= MemSize(mem) && ElfLoad(IDENTITY, State(core, mem), stksz, elf, image).Started?
    requires CleanRun(IDENTITY, ElfLoad(IDENTITY, State(core, mem), stksz, elf, image).st, LoadedBytes(elf.phdrs), n)
    ensures FileDetermined(elf, image, core, |mem|, stksz, n)
  {
    hide ElfLoad, Run, CleanRun, LoadedBytes;
    forall a: Ram | |a| == |mem|
      ensures Observe(IDENTITY, elf, image, core, a, stksz, n) == Observe(IDENTITY, elf, image, core, mem, stksz, n)
    {
      StartsAgree(elf, image, core, mem, a, stksz);
      CleanRunsSame(IDENTITY, ElfLoad(IDENTITY, State(core, mem), stksz, elf, image).st,
                    IDENTITY, ElfLoad(IDENTITY, State(core, a), stksz, elf, image).st, LoadedBytes(elf.phdrs), n);
    }
  }
}
