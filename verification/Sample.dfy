/** A file that meets everything the end-to-end theorems ask of one. */
module Sample {
  import opened Bits
  import opened Memory
  import opened Machine
  import opened Rc5
  import opened Elf
  import opened ElfCrypt
  import opened Footprint
  import opened EndToEnd
  import Op = Opcodes

  // ----- The bytes -----

  /** The ELF header and one program header. */
  function HeaderByte(i: nat): Byte {
    match i
    case 0 => 0x7F case 1 => 0x45 case 2 => 0x4C case 3 => 0x46 case 4 => 1 case 5 => 1 case 6 => 1
    case 16 => 2 case 18 => 8 case 20 => 1 case 25 => 0x10 case 28 => 52 case 32 => 84
    case 40 => 52 case 42 => 32 case 44 => 1 case 46 => 40 case 48 => 4 case 50 => 3
    case 52 => 1 case 56 => 0xF4 case 61 => 0x10 case 65 => 0x10 case 68 => 4 case 72 => 4 case 76 => 5 case 80 => 4
    case _ => 0
  }

  /** The section headers: none, .symtab, .strtab and .shstrtab. */
  function SectionByte(i: nat): Byte {
    match i
    case 124 => 1 case 128 => 2 case 140 => 0xF8 case 144 => 32 case 148 => 2 case 156 => 4 case 160 => 16
    case 164 => 9 case 168 => 3 case 180 => 0x18 case 181 => 1 case 184 => 9 case 196 => 1
    case 204 => 17 case 208 => 3 case 220 => 0x21 case 221 => 1 case 224 => 27 case 236 => 1
    case _ => 0
  }

  /** One instruction, BREAK, at 244; a symbol table at 248 with _gp and _end, both 0x1000; their names at
      280; and the section names at 289. */
  function BodyByte(i: nat): Byte {
    match i
    case 244 => 0x0D
    case 253 => 0x10 case 260 => 0x10 case 262 => 0xF1 case 263 => 0xFF
    case 264 => 4 case 269 => 0x10 case 276 => 0x11 case 278 => 0xF1 case 279 => 0xFF
    case 280 => 0x5F case 281 => 0x67 case 282 => 0x70
    case 284 => 0x5F case 285 => 0x65 case 286 => 0x6E case 287 => 0x64
    case 290 => 0x2E case 291 => 0x73 case 292 => 0x79 case 293 => 0x6D case 294 => 0x74 case 295 => 0x61 case 296 => 0x62
    case 298 => 0x2E case 299 => 0x73 case 300 => 0x74 case 301 => 0x72 case 302 => 0x74 case 303 => 0x61 case 304 => 0x62
    case 306 => 0x2E case 307 => 0x73 case 308 => 0x68 case 309 => 0x73 case 310 => 0x74 case 311 => 0x72
    case 312 => 0x74 case 313 => 0x61 case 314 => 0x62
    case _ => 0
  }

  const SAMPLE: seq<Byte> :=
    seq(316, i requires 0 <= i => if i < 84 then HeaderByte(i) else if i < 244 then SectionByte(i) else BodyByte(i))

  const SAMPLE_TABLES := Tables(Shdr(SHT_SYMTAB, 248, 32, 16), Shdr(SHT_STRTAB, 280, 9, 0))

  /** The file as it is parsed: from its ELF header, its program header, its section headers and the
      section names. */
  const SAMPLE_ELF := ElfFile(true, 0x1000, [Phdr(PT_LOAD, 244, 0x1000, 4, 4)], Some(SAMPLE_TABLES),
                              [Extent(0, 52), Extent(52, 32), Extent(84, 160), Extent(289, 27)])

  // ----- The headers -----

  const EM_MIPS := 8

  /** What the loader and the encryption program test of an ELF header. */
  predicate HeaderAccepted(image: seq<Byte>) {
    && |image| >= EHDR_SIZE
    && image[..4] == [0x7F, 0x45, 0x4C, 0x46] && image[4] == 1 && image[5] == 1
    && FileHalf(image, 16) == 2 && FileHalf(image, 18) == EM_MIPS
    && FileHalf(image, 40) == EHDR_SIZE && FileHalf(image, 42) == PHDR_SIZE && FileHalf(image, 44) > 0
    && FileWord(image, 28) + FileHalf(image, 44) * FileHalf(image, 42) <= |image|
    && FileWord(image, 32) + FileHalf(image, 48) * FileHalf(image, 46) <= |image|
    && FileHalf(image, 50) < FileHalf(image, 48)
  }

  function PhdrAt(image: seq<Byte>, o: nat): Phdr
    requires o + 32 <= |image|
  {
    Phdr(FileWord(image, o), FileWord(image, o + 4), FileWord(image, o + 8), FileWord(image, o + 16), FileWord(image, o + 20))
  }

  function ShdrAt(image: seq<Byte>, o: nat): Shdr
    requires o + 40 <= |image|
  {
    Shdr(FileWord(image, o + 4), FileWord(image, o + 16), FileWord(image, o + 20), FileWord(image, o + 36))
  }

  lemma SampleWord(o: nat, b0: Byte, b1: Byte)
    requires o + 4 <= |SAMPLE| && SAMPLE[o] == b0 && SAMPLE[o + 1] == b1 && SAMPLE[o + 2] == SAMPLE[o + 3] == 0
    ensures var x: int, y: int := b0, b1; FileWord(SAMPLE, o) == x + 0x100 * y
  {
  }

  lemma SampleHalf(o: nat, b0: Byte)
    requires o + 2 <= |SAMPLE| && SAMPLE[o] == b0 && SAMPLE[o + 1] == 0
    ensures FileHalf(SAMPLE, o) == b0
  {
  }

  /** The header passes these tests. */
  lemma SampleHeader()
    ensures HeaderAccepted(SAMPLE) && FileWord(SAMPLE, 24) == SAMPLE_ELF.entry
  {
    hide FileWord, FileHalf, HeaderByte, SectionByte, BodyByte;
    SampleIdent();
    SampleKind();
    SampleCounts();
    SampleOffsets();
  }

  lemma SampleIdent()
    ensures SAMPLE[..4] == [0x7F, 0x45, 0x4C, 0x46] && SAMPLE[4] == 1 && SAMPLE[5] == 1
  {
    assert SAMPLE[0] == 0x7F && SAMPLE[1] == 0x45 && SAMPLE[2] == 0x4C && SAMPLE[3] == 0x46;
  }

  lemma SampleKind()
    ensures FileHalf(SAMPLE, 16) == 2 && FileHalf(SAMPLE, 18) == EM_MIPS
    ensures FileHalf(SAMPLE, 40) == EHDR_SIZE && FileHalf(SAMPLE, 42) == PHDR_SIZE
  {
    hide FileHalf;
    SampleHalf(16, 2);
    SampleHalf(18, 8);
    SampleHalf(40, 52);
    SampleHalf(42, 32);
  }

  lemma SampleCounts()
    ensures FileHalf(SAMPLE, 44) == 1 && FileHalf(SAMPLE, 46) == 40
    ensures FileHalf(SAMPLE, 48) == 4 && FileHalf(SAMPLE, 50) == 3
  {
    hide FileHalf;
    SampleHalf(44, 1);
    SampleHalf(46, 40);
    SampleHalf(48, 4);
    SampleHalf(50, 3);
  }

  lemma SampleOffsets()
    ensures FileWord(SAMPLE, 24) == 0x1000 && FileWord(SAMPLE, 28) == 52 && FileWord(SAMPLE, 32) == 84
  {
    hide FileWord;
    SampleWord(24, 0, 0x10);
    SampleWord(28, 52, 0);
    SampleWord(32, 84, 0);
  }

  /** And the headers behind it are the ones parsed. */
  lemma SampleParsed()
    ensures PhdrAt(SAMPLE, 52) == SAMPLE_ELF.phdrs[0]
    ensures ShdrAt(SAMPLE, 124) == SAMPLE_TABLES.symtab && ShdrAt(SAMPLE, 164) == SAMPLE_TABLES.strings
  {
    hide PhdrAt, ShdrAt;
    SampleProgram();
    SampleSymtab();
    SampleStrtab();
  }

  lemma SampleProgram()
    ensures PhdrAt(SAMPLE, 52) == SAMPLE_ELF.phdrs[0]
  {
    hide FileWord, SectionByte, BodyByte;
    SampleWord(52, 1, 0);
    SampleWord(56, 0xF4, 0);
    SampleWord(60, 0, 0x10);
    SampleWord(68, 4, 0);
    SampleWord(72, 4, 0);
  }

  lemma SampleSymtab()
    ensures ShdrAt(SAMPLE, 124) == SAMPLE_TABLES.symtab
  {
    hide FileWord;
    SampleWord(128, 2, 0);
    SampleWord(140, 0xF8, 0);
    SampleWord(144, 32, 0);
    SampleWord(160, 16, 0);
  }

  lemma SampleStrtab()
    ensures ShdrAt(SAMPLE, 164) == SAMPLE_TABLES.strings
  {
    hide FileWord;
    SampleWord(168, 3, 0);
    SampleWord(180, 0x18, 1);
    SampleWord(184, 9, 0);
    SampleWord(200, 0, 0);
  }

  // ----- The symbols -----

  lemma SampleSymbols()
    ensures FindSymbol(SAMPLE_TABLES, SAMPLE, GP_NAME) == Found(Sym(0, 0x1000, STB_GLOBAL, 0, SHN_ABS))
    ensures FindSymbol(SAMPLE_TABLES, SAMPLE, END_NAME) == Found(Sym(4, 0x1000, STB_GLOBAL, 1, SHN_ABS))
  {
    hide CString, GetString, GetSym;
    var t := SAMPLE_TABLES;
    SampleEntries();
    SampleNames();
    assert GP_NAME[1] != END_NAME[1];
    assert FindFrom(t, SAMPLE, END_NAME, 0) == FindFrom(t, SAMPLE, END_NAME, 1);
  }

  lemma SampleEntries()
    ensures GetSym(SAMPLE_TABLES, SAMPLE, 0) == Found(Sym(0, 0x1000, STB_GLOBAL, 0, SHN_ABS))
    ensures GetSym(SAMPLE_TABLES, SAMPLE, 1) == Found(Sym(4, 0x1000, STB_GLOBAL, 1, SHN_ABS))
  {
    hide SymAt;
    SampleRecord(248, 0);
    SampleRecord(264, 4);
  }

  lemma SampleRecord(o: nat, name: Byte)
    requires (o == 248 && name == 0) || (o == 264 && name == 4)
    ensures SymAt(SAMPLE, o) == Sym(name, 0x1000, STB_GLOBAL, if name == 0 then 0 else 1, SHN_ABS)
  {
    hide FileWord, HeaderByte, SectionByte;
    if o == 248 {
      SampleWord(248, 0, 0);
      SampleWord(252, 0, 0x10);
    } else {
      SampleWord(264, 4, 0);
      SampleWord(268, 0, 0x10);
    }
    assert SAMPLE[o + 12] == (if name == 0 then 0x10 else 0x11) && FileHalf(SAMPLE, o + 14) == 0xFFF1;
  }

  lemma NextChar(image: seq<Byte>, p: nat, rest: seq<Byte>)
    requires p < |image| && image[p] != 0 && CString(image, p + 1) == rest
    ensures CString(image, p) == [image[p]] + rest
  {
  }

  lemma SampleNames()
    ensures GetString(SAMPLE, SAMPLE_TABLES.strings, 0) == Found(GP_NAME)
    ensures GetString(SAMPLE, SAMPLE_TABLES.strings, 4) == Found(END_NAME)
  {
    var sh := SAMPLE_TABLES.strings;
    assert SAMPLE[283] == 0 && Terminated(SAMPLE, sh, 0);
    assert SAMPLE[288] == 0 && Terminated(SAMPLE, sh, 4);
    SampleStrings();
  }

  lemma SampleStrings()
    ensures CString(SAMPLE, 280) == GP_NAME && CString(SAMPLE, 284) == END_NAME
  {
    hide CString, HeaderByte, SectionByte;
    SampleGp();
    SampleEnd();
  }

  lemma SampleGp()
    ensures CString(SAMPLE, 280) == GP_NAME
  {
    assert CString(SAMPLE, 283) == [];
    hide CString, HeaderByte, SectionByte;
    NextChar(SAMPLE, 282, []);
    NextChar(SAMPLE, 281, [0x70]);
    NextChar(SAMPLE, 280, [0x67, 0x70]);
  }

  lemma SampleEnd()
    ensures CString(SAMPLE, 284) == END_NAME
  {
    assert CString(SAMPLE, 288) == [];
    hide CString, HeaderByte, SectionByte;
    NextChar(SAMPLE, 287, []);
    NextChar(SAMPLE, 286, [0x64]);
    NextChar(SAMPLE, 285, [0x6E, 0x64]);
    NextChar(SAMPLE, 284, [0x65, 0x6E, 0x64]);
  }

  // ----- The run -----

  /** It passes the header tests, is suitable, is encrypted under every key, starts, and runs cleanly to its BREAK. */
  lemma SampleRuns(s: Table, mem: Ram, n: nat)
    requires |mem| == 0x402
    ensures HeaderAccepted(SAMPLE) && SAMPLE_ELF.phdrs == [PhdrAt(SAMPLE, 52)]
    ensures Suitable(SAMPLE_ELF, SAMPLE) && CryptFile(s, SAMPLE, SAMPLE_ELF.phdrs).Encrypted?
    ensures var start := ElfLoad(IDENTITY, State(RESET_CORE, mem), 4, SAMPLE_ELF, SAMPLE);
            && start.Started? && CleanRun(IDENTITY, start.st, LoadedBytes(SAMPLE_ELF.phdrs), n)
            && (n > 0 ==> Run(IDENTITY, start.st, n).exn == Exn.BREAK)
  {
    hide CryptFile, ElfLoad, LoadedBytes, Step, StepReads, HeaderAccepted, PhdrAt, Suitable, HeaderByte, SectionByte, BodyByte;
    SampleHeader();
    SampleProgram();
    SampleSuitable(s);
    SampleStarts(mem);
    SampleStep(ElfLoad(IDENTITY, State(RESET_CORE, mem), 4, SAMPLE_ELF, SAMPLE).st);
    SampleBytes();
  }

  lemma SampleSuitable(s: Table)
    ensures Suitable(SAMPLE_ELF, SAMPLE) && CryptFile(s, SAMPLE, SAMPLE_ELF.phdrs).Encrypted?
  {
    hide CryptSegments, HeaderByte, SectionByte, BodyByte;
  }

  lemma SampleBytes()
    ensures LoadedBytes(SAMPLE_ELF.phdrs) == Bytes(0x1000, 0x1004)
  {
    assert SAMPLE_ELF.phdrs[1..] == [];
    assert LoadedBytes([]) == {};
  }

  lemma SampleStarts(mem: Ram)
    requires |mem| == 0x402
    ensures var start := ElfLoad(IDENTITY, State(RESET_CORE, mem), 4, SAMPLE_ELF, SAMPLE);
            && start.Started? && start.st.mem[0x400] == 0x0D && start.st.core.g.r[0] == 0
            && start.st.core.pc == 0x1000 && start.st.core.ds == 0
  {
    hide FindSymbol, LoadSegments;
    SampleSymbols();
    SampleLoads(mem);
  }

  lemma SampleLoads(mem: Ram)
    requires |mem| == 0x402
    ensures LoadSegments(IDENTITY, mem, 0x1004, SAMPLE_ELF.phdrs, SAMPLE).Loaded?
    ensures LoadSegments(IDENTITY, mem, 0x1004, SAMPLE_ELF.phdrs, SAMPLE).mem[0x400] == 0x0D
  {
    var phs := SAMPLE_ELF.phdrs;
    assert phs[1..] == [];
    SampleWord(244, 0x0D, 0);
    assert Overlay(IDENTITY, mem, 0x1004, phs[0], SAMPLE)[0x400] == 0x0D;
  }

  lemma SampleStep(m: State)
    requires m.core.pc == 0x1000 && m.core.ds == 0 && m.core.g.r[0] == 0 && m.mem[0x400] == 0x0D
    ensures Step(IDENTITY, m) == Outcome(Exn.BREAK, m) && StepReads(IDENTITY, m) == Bytes(0x1000, 0x1004)
  {
    assert Fetch(IDENTITY, m) == Value(0x0D) && Op.Decode(0x0D) == Op.BREAK;
  }
}
