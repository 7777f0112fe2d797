/** Encryption of the segments of an ELF file. */
module ElfCrypt {
  import opened Bits
  import opened Rc5
  import opened Elf
  import E = Rc5Engine

  // ----- One segment -----

  /** The number of blocks the segment loop encrypts; the last one may reach past the file data. */
  function Blocks(ph: Phdr): (n: nat)
    ensures 4 * n - 4 < ph.filesz <= 4 * n
  {
    (ph.filesz + 3) / 4
  }

  /** The bytes those blocks take up. */
  function Span(ph: Phdr): nat { 4 * Blocks(ph) }

  /** The blocks of the segment lie in the file. */
  predicate InFile(ph: Phdr, n: nat) {
    ph.filesz == 0 || ph.offset + Span(ph) <= n
  }

  /** `n` blocks from `off` on encrypted. */
  function CryptRange(s: Table, image: seq<Byte>, off: nat, n: nat): (image': seq<Byte>)
    requires n == 0 || off + 4 * n <= |image|
    ensures |image'| == |image|
    decreases n
  {
    if n == 0 then image
    else CryptRange(s, CryptBlock(s, image, off), off + 4, n - 1)
  }

  function CryptBlock(s: Table, image: seq<Byte>, off: nat): (image': seq<Byte>)
    requires off + 4 <= |image|
    ensures |image'| == |image|
  {
    E.WithBlock(image, off, Encrypt(s, E.BlockAt(image, off)))
  }

  lemma CryptBlockWord(s: Table, image: seq<Byte>, off: nat)
    requires off + 4 <= |image|
    ensures FileWord(CryptBlock(s, image, off), off) == EncryptWord(s, FileWord(image, off))
    ensures forall p :: 0 <= p < |image| && !(off <= p < off + 4) ==> CryptBlock(s, image, off)[p] == image[p]
  {
    hide Encrypt;
    WordBytes(image[off], image[off + 1], image[off + 2], image[off + 3], Encrypt(s, E.BlockAt(image, off)));
  }

  lemma {:induction false} CryptRangeOutside(s: Table, image: seq<Byte>, off: nat, n: nat, p: nat)
    requires n == 0 || off + 4 * n <= |image|
    requires p < |image| && (p < off || p >= off + 4 * n)
    ensures CryptRange(s, image, off, n)[p] == image[p]
    decreases n
  {
    hide CryptBlock;
    if n > 0 {
      CryptBlockWord(s, image, off);
      CryptRangeOutside(s, CryptBlock(s, image, off), off + 4, n - 1, p);
    }
  }

  lemma SameFileWord(a: seq<Byte>, b: seq<Byte>, o: nat)
    requires o + 4 <= |a| == |b|
    requires forall p :: o <= p < o + 4 ==> a[p] == b[p]
    ensures FileWord(a, o) == FileWord(b, o)
  {
  }

  /** The words of a file that the range holds, as the loader reads them, are the encrypted words. */
  lemma {:induction false} CryptRangeWords(s: Table, image: seq<Byte>, off: nat, n: nat, i: nat)
    requires off + 4 * n <= |image| && i < n
    ensures FileWord(CryptRange(s, image, off, n), off + 4 * i) == EncryptWord(s, FileWord(image, off + 4 * i))
    decreases n
  {
    hide CryptBlock, EncryptWord, FileWord;
    var image' := CryptBlock(s, image, off);
    CryptBlockWord(s, image, off);
    if i == 0 {
      forall p | off <= p < off + 4
        ensures CryptRange(s, image', off + 4, n - 1)[p] == image'[p]
      {
        CryptRangeOutside(s, image', off + 4, n - 1, p);
      }
      SameFileWord(CryptRange(s, image', off + 4, n - 1), image', off);
    } else {
      CryptRangeWords(s, image', off + 4, n - 1, i - 1);
      SameFileWord(image', image, off + 4 * i);
    }
  }

  // ----- All segments -----

  predicate AllInFile(phs: seq<Phdr>, n: nat) {
    forall i :: 0 <= i < |phs| ==> InFile(phs[i], n)
  }

  function CryptSegments(s: Table, image: seq<Byte>, phs: seq<Phdr>): (image': seq<Byte>)
    requires AllInFile(phs, |image|)
    ensures |image'| == |image|
    decreases |phs|
  {
    if phs == [] then image
    else CryptSegments(s, CryptRange(s, image, phs[0].offset, Blocks(phs[0])), phs[1..])
  }

  predicate RangeDisjoint(ph: Phdr, off: nat, n: nat) {
    ph.offset + Span(ph) <= off || off + n <= ph.offset || ph.filesz == 0 || n == 0
  }

  predicate AllDisjoint(phs: seq<Phdr>, off: nat, n: nat) {
    forall i :: 0 <= i < |phs| ==> RangeDisjoint(phs[i], off, n)
  }

  predicate PairwiseDisjoint(phs: seq<Phdr>) {
    forall i, j :: 0 <= i < j < |phs| ==> RangeDisjoint(phs[i], phs[j].offset, Span(phs[j]))
  }

  /** A range that no segment touches keeps its bytes. */
  lemma {:induction false} CryptSegmentsOutside(s: Table, image: seq<Byte>, phs: seq<Phdr>, off: nat, n: nat, p: nat)
    requires AllInFile(phs, |image|) && AllDisjoint(phs, off, n)
    requires off <= p < off + n && p < |image|
    ensures CryptSegments(s, image, phs)[p] == image[p]
    decreases |phs|
  {
    hide CryptRange;
    if phs != [] {
      var ph := phs[0];
      assert RangeDisjoint(ph, off, n);
      CryptRangeOutside(s, image, ph.offset, Blocks(ph), p);
      CryptSegmentsOutside(s, CryptRange(s, image, ph.offset, Blocks(ph)), phs[1..], off, n, p);
    }
  }

  /** Each word of each segment is encrypted exactly once. */
  lemma {:induction false} CryptSegmentsWords(s: Table, image: seq<Byte>, phs: seq<Phdr>, k: nat, i: nat)
    requires AllInFile(phs, |image|) && PairwiseDisjoint(phs)
    requires k < |phs| && i < Blocks(phs[k])
    ensures FileWord(CryptSegments(s, image, phs), phs[k].offset + 4 * i) ==
            EncryptWord(s, FileWord(image, phs[k].offset + 4 * i))
    decreases |phs|
  {
    hide CryptRange, EncryptWord, FileWord;
    var ph, rest := phs[0], phs[1..];
    var image' := CryptRange(s, image, ph.offset, Blocks(ph));
    var o := phs[k].offset + 4 * i;
    RestDisjoint(phs);
    if k == 0 {
      CryptRangeWords(s, image, ph.offset, Blocks(ph), i);
      SegmentsKeepWord(s, image', rest, ph.offset, Span(ph), o);
    } else {
      CryptSegmentsWords(s, image', rest, k - 1, i);
      assert RangeDisjoint(phs[0], phs[k].offset, Span(phs[k]));
      RangeKeepsWord(s, image, ph, phs[k].offset, Span(phs[k]), o);
    }
  }

  lemma SegmentsKeepWord(s: Table, image: seq<Byte>, phs: seq<Phdr>, off: nat, n: nat, o: nat)
    requires AllInFile(phs, |image|) && AllDisjoint(phs, off, n)
    requires off <= o && o + 4 <= off + n && o + 4 <= |image|
    ensures FileWord(CryptSegments(s, image, phs), o) == FileWord(image, o)
  {
    hide CryptSegments, FileWord, InFile;
    forall p | o <= p < o + 4
      ensures CryptSegments(s, image, phs)[p] == image[p]
    {
      CryptSegmentsOutside(s, image, phs, off, n, p);
    }
    SameFileWord(CryptSegments(s, image, phs), image, o);
  }

  lemma RangeKeepsWord(s: Table, image: seq<Byte>, ph: Phdr, off: nat, n: nat, o: nat)
    requires InFile(ph, |image|) && RangeDisjoint(ph, off, n)
    requires off <= o && o + 4 <= off + n && o + 4 <= |image|
    ensures FileWord(CryptRange(s, image, ph.offset, Blocks(ph)), o) == FileWord(image, o)
  {
    hide CryptRange, FileWord;
    forall p | o <= p < o + 4
      ensures CryptRange(s, image, ph.offset, Blocks(ph))[p] == image[p]
    {
      CryptRangeOutside(s, image, ph.offset, Blocks(ph), p);
    }
    SameFileWord(CryptRange(s, image, ph.offset, Blocks(ph)), image, o);
  }

  lemma RestDisjoint(phs: seq<Phdr>)
    requires PairwiseDisjoint(phs) && phs != []
    ensures PairwiseDisjoint(phs[1..]) && AllDisjoint(phs[1..], phs[0].offset, Span(phs[0]))
  {
    forall j | 0 <= j < |phs[1..]|
      ensures RangeDisjoint(phs[1..][j], phs[0].offset, Span(phs[0]))
    {
      assert RangeDisjoint(phs[0], phs[j + 1].offset, Span(phs[j + 1]));
    }
    forall j, l | 0 <= j < l < |phs[1..]|
      ensures RangeDisjoint(phs[1..][j], phs[1..][l].offset, Span(phs[1..][l]))
    {
      assert RangeDisjoint(phs[j + 1], phs[l + 1].offset, Span(phs[l + 1]));
    }
  }

  // ----- The program -----

  /** OutOfBounds stands for encrypting past the end of the file buffer, which is not defined. */
  datatype CryptResult = Encrypted(image: seq<Byte>) | Rejected | OutOfBounds

  /** The tests of the segment loop. They look at the first header only, whatever segment is next. */
  predicate FirstHeaderAccepted(phs: seq<Phdr>, n: nat) {
    && phs != [] && phs[0].ptype == PT_LOAD
    && ToWord(phs[0].offset + phs[0].filesz) < n
    && phs[0].filesz % 4 == 0 && phs[0].memsz % 4 == 0
  }

  function CryptFile(s: Table, image: seq<Byte>, phs: seq<Phdr>): CryptResult {
    if !FirstHeaderAccepted(phs, |image|) then Rejected
    else if !AllInFile(phs, |image|) then OutOfBounds
    else Encrypted(CryptSegments(s, image, phs))
  }

  /** The last block of a segment's data, filled up to four bytes, ends behind the file. */
  predicate LeavesFile(ph: Phdr, n: nat) {
    ph.filesz > 0 && ph.offset + 4 * ((ph.filesz + 3) / 4) > n
  }

  /** When a file is refused, in numbers: a segment that ends with the file is. */
  lemma RejectedIff(s: Table, image: seq<Byte>, phs: seq<Phdr>)
    ensures CryptFile(s, image, phs) == Rejected <==>
            || phs == [] || phs[0].ptype != 1 || (phs[0].offset + phs[0].filesz) % 0x1_0000_0000 >= |image|
            || phs[0].filesz % 4 != 0 || phs[0].memsz % 4 != 0
    ensures CryptFile(s, image, phs) == OutOfBounds <==>
            && CryptFile(s, image, phs) != Rejected
            && exists k :: 0 <= k < |phs| && LeavesFile(phs[k], |image|)
  {
    hide CryptSegments;
    if CryptFile(s, image, phs) == OutOfBounds {
      var k :| 0 <= k < |phs| && !InFile(phs[k], |image|);
      assert LeavesFile(phs[k], |image|);
    }
    if k :| 0 <= k < |phs| && LeavesFile(phs[k], |image|) {
      assert !InFile(phs[k], |image|);
    }
  }

  /** The type of any header but the first plays no part: its range is encrypted all the same. */
  lemma {:induction false} LaterTypesIgnored(s: Table, image: seq<Byte>, phs: seq<Phdr>, k: nat, t: Word)
    requires 0 < k < |phs|
    ensures CryptFile(s, image, phs[k := phs[k].(ptype := t)]) == CryptFile(s, image, phs)
  {
    hide CryptSegments;
    if AllInFile(phs, |image|) {
      TypesIgnored(s, image, phs, k, t);
    } else {
      var i :| 0 <= i < |phs| && !InFile(phs[i], |image|);
      assert !InFile(phs[k := phs[k].(ptype := t)][i], |image|);
    }
  }

  lemma {:induction false} TypesIgnored(s: Table, image: seq<Byte>, phs: seq<Phdr>, k: nat, t: Word)
    requires AllInFile(phs, |image|) && k < |phs|
    ensures AllInFile(phs[k := phs[k].(ptype := t)], |image|)
    ensures CryptSegments(s, image, phs[k := phs[k].(ptype := t)]) == CryptSegments(s, image, phs)
    decreases |phs|
  {
    hide CryptRange;
    var phs' := phs[k := phs[k].(ptype := t)];
    var image' := CryptRange(s, image, phs[0].offset, Blocks(phs[0]));
    if k == 0 {
      assert phs'[1..] == phs[1..];
    } else {
      assert phs'[1..] == phs[1..][k - 1 := phs[1..][k - 1].(ptype := t)];
      TypesIgnored(s, image', phs[1..], k - 1, t);
    }
  }

  // ----- What the program is for -----

  /** The headers of the loadable segments; the others with nothing to encrypt. */
  function LoadableOnly(phs: seq<Phdr>): seq<Phdr> {
    seq(|phs|, i requires 0 <= i < |phs| => if phs[i].ptype == PT_LOAD then phs[i] else phs[i].(filesz := 0))
  }

  /** The test a header is meant to pass, on exact sums. */
  predicate Encryptable(ph: Phdr, n: nat) {
    ph.offset + ph.filesz < n && ph.filesz % 4 == 0 && ph.memsz % 4 == 0
  }

  /** What its description asks for: each loadable segment tested and encrypted, and no other. */
  function IntendedFile(s: Table, image: seq<Byte>, phs: seq<Phdr>): CryptResult {
    if (forall i :: 0 <= i < |phs| ==> phs[i].ptype != PT_LOAD) then Rejected
    else if exists i :: 0 <= i < |phs| && phs[i].ptype == PT_LOAD && !Encryptable(phs[i], |image|) then Rejected
    else Encrypted(CryptSegments(s, image, LoadableOnly(phs)))
  }

  // ----- Overlapping ranges -----

  /** Ranges that overlap do so in whole blocks. */
  predicate OverlapInBlocks(phs: seq<Phdr>) {
    forall i, j :: 0 <= i < j < |phs| ==>
      RangeDisjoint(phs[i], phs[j].offset, Span(phs[j])) || phs[i].offset % 4 == phs[j].offset % 4
  }

  predicate Holds(ph: Phdr, o: nat) {
    ph.filesz > 0 && ph.offset <= o < ph.offset + Span(ph)
  }

  /** The number of headers whose range holds byte `o`, and of those that are not loadable. */
  function Covering(phs: seq<Phdr>, o: nat): nat {
    if phs == [] then 0 else (if Holds(phs[0], o) then 1 else 0) + Covering(phs[1..], o)
  }

  function CoveringOthers(phs: seq<Phdr>, o: nat): nat {
    if phs == [] then 0
    else (if phs[0].ptype != PT_LOAD && Holds(phs[0], o) then 1 else 0) + CoveringOthers(phs[1..], o)
  }

  lemma {:induction false} CoveringSplit(phs: seq<Phdr>, o: nat)
    ensures Covering(phs, o) == Covering(LoadableOnly(phs), o) + CoveringOthers(phs, o)
    decreases |phs|
  {
    if phs != [] {
      assert LoadableOnly(phs)[1..] == LoadableOnly(phs[1..]);
      CoveringSplit(phs[1..], o);
    }
  }

  function EncryptTimes(s: Table, n: nat, w: Word): Word {
    if n == 0 then w else EncryptWord(s, EncryptTimes(s, n - 1, w))
  }

  lemma {:induction false} TimesAdd(s: Table, a: nat, b: nat, w: Word)
    ensures EncryptTimes(s, a + b, w) == EncryptTimes(s, a, EncryptTimes(s, b, w))
    decreases a
  {
    hide EncryptWord;
    if a > 0 {
      TimesAdd(s, a - 1, b, w);
    }
  }

  lemma {:induction false} TimesInjective(s: Table, n: nat, x: Word, y: Word)
    requires EncryptTimes(s, n, x) == EncryptTimes(s, n, y)
    ensures x == y
    decreases n
  {
    hide EncryptWord, DecryptWord;
    if n > 0 {
      WordsPermuted(s, EncryptTimes(s, n - 1, x));
      WordsPermuted(s, EncryptTimes(s, n - 1, y));
      TimesInjective(s, n - 1, x, y);
    }
  }

  /** The block at `o` is one of the blocks of the range, or apart from it. */
  predicate BlockOf(ph: Phdr, o: nat) {
    RangeDisjoint(ph, o, 4) || (ph.offset <= o && o + 4 <= ph.offset + Span(ph) && (o - ph.offset) % 4 == 0)
  }

  /** A word is encrypted once for every range that holds it. */
  lemma {:induction false} EncryptedPerCover(s: Table, image: seq<Byte>, phs: seq<Phdr>, o: nat)
    requires AllInFile(phs, |image|) && o + 4 <= |image| && forall j :: 0 <= j < |phs| ==> BlockOf(phs[j], o)
    ensures FileWord(CryptSegments(s, image, phs), o) == EncryptTimes(s, Covering(phs, o), FileWord(image, o))
    decreases |phs|
  {
    hide CryptRange, EncryptWord, FileWord;
    if phs != [] {
      var ph := phs[0];
      var image' := CryptRange(s, image, ph.offset, Blocks(ph));
      EncryptedPerCover(s, image', phs[1..], o);
      assert BlockOf(ph, o);
      if RangeDisjoint(ph, o, 4) {
        RangeKeepsWord(s, image, ph, o, 4, o);
      } else {
        CryptRangeWords(s, image, ph.offset, Blocks(ph), (o - ph.offset) / 4);
        TimesAdd(s, Covering(phs[1..], o), 1, FileWord(image, o));
      }
    }
  }

  lemma BlocksAgree(phs: seq<Phdr>, k: nat, i: nat, j: nat)
    requires OverlapInBlocks(phs) && k < |phs| && i < Blocks(phs[k]) && j < |phs|
    ensures BlockOf(phs[j], phs[k].offset + 4 * i) && BlockOf(LoadableOnly(phs)[j], phs[k].offset + 4 * i)
  {
    if j < k {
      assert RangeDisjoint(phs[j], phs[k].offset, Span(phs[k])) || phs[j].offset % 4 == phs[k].offset % 4;
    } else if k < j {
      assert RangeDisjoint(phs[k], phs[j].offset, Span(phs[j])) || phs[k].offset % 4 == phs[j].offset % 4;
    }
    CongruentBlocks(phs[j], phs[k], i);
  }

  lemma CongruentBlocks(ph: Phdr, other: Phdr, i: nat)
    requires i < Blocks(other)
    requires RangeDisjoint(ph, other.offset, Span(other)) || ph.offset % 4 == other.offset % 4
    ensures BlockOf(ph, other.offset + 4 * i)
  {
    if ph.offset % 4 == other.offset % 4 {
      var o := other.offset + 4 * i;
      assert (o - ph.offset) % 4 == 0;
    }
  }

  // ----- When the other headers matter -----

  /** Every word comes back to itself after as many encryptions as headers of other types hold it; where
      there is one such header, the word is a fixed point of the cipher. */
  ghost predicate OthersCancel(s: Table, image: seq<Byte>, phs: seq<Phdr>)
    requires AllInFile(phs, |image|)
  {
    forall k, i: nat :: 0 <= k < |phs| && i < Blocks(phs[k]) ==> BlockReturns(s, image, phs, k, i)
  }

  predicate BlockReturns(s: Table, image: seq<Byte>, phs: seq<Phdr>, k: nat, i: nat)
    requires k < |phs| && InFile(phs[k], |image|) && i < Blocks(phs[k])
  {
    var o := phs[k].offset + 4 * i;
    EncryptTimes(s, CoveringOthers(phs, o), FileWord(image, o)) == FileWord(image, o)
  }

  lemma LoadableOnlyFits(phs: seq<Phdr>, n: nat)
    requires AllInFile(phs, n)
    ensures AllInFile(LoadableOnly(phs), n)
  {
  }

  /** The two ways of encrypting agree on a block if and only if it returns. */
  lemma BlockBothWays(s: Table, image: seq<Byte>, phs: seq<Phdr>, k: nat, i: nat)
    requires OverlapInBlocks(phs) && AllInFile(phs, |image|) && k < |phs| && i < Blocks(phs[k])
    ensures AllInFile(LoadableOnly(phs), |image|)
    ensures var o := phs[k].offset + 4 * i;
            FileWord(CryptSegments(s, image, phs), o) == FileWord(CryptSegments(s, image, LoadableOnly(phs)), o) <==>
            BlockReturns(s, image, phs, k, i)
  {
    hide CryptSegments, EncryptWord, FileWord, EncryptTimes, OverlapInBlocks, Covering, CoveringOthers, BlockOf;
    LoadableOnlyFits(phs, |image|);
    var only, o := LoadableOnly(phs), phs[k].offset + 4 * i;
    forall j | 0 <= j < |phs|
      ensures BlockOf(phs[j], o) && BlockOf(only[j], o)
    {
      BlocksAgree(phs, k, i, j);
    }
    EncryptedPerCover(s, image, phs, o);
    EncryptedPerCover(s, image, only, o);
    CoveringSplit(phs, o);
    var l, n, w := Covering(only, o), CoveringOthers(phs, o), FileWord(image, o);
    TimesAdd(s, l, n, w);
    if EncryptTimes(s, l, EncryptTimes(s, n, w)) == EncryptTimes(s, l, w) {
      TimesInjective(s, l, EncryptTimes(s, n, w), w);
    }
  }

  lemma FileWordBytes(a: seq<Byte>, b: seq<Byte>, o: nat, p: nat)
    requires o + 4 <= |a| == |b| && FileWord(a, o) == FileWord(b, o) && o <= p < o + 4
    ensures a[p] == b[p]
  {
    BytesOfJoin(a[o], a[o + 1], a[o + 2], a[o + 3]);
    BytesOfJoin(b[o], b[o + 1], b[o + 2], b[o + 3]);
  }

  lemma ByteBothWays(s: Table, image: seq<Byte>, phs: seq<Phdr>, p: nat)
    requires OverlapInBlocks(phs) && AllInFile(phs, |image|) && p < |image| && OthersCancel(s, image, phs)
    ensures AllInFile(LoadableOnly(phs), |image|)
    ensures CryptSegments(s, image, phs)[p] == CryptSegments(s, image, LoadableOnly(phs))[p]
  {
    hide CryptSegments, EncryptWord, FileWord, BlockReturns, OverlapInBlocks;
    LoadableOnlyFits(phs, |image|);
    if k :| 0 <= k < |phs| && Holds(phs[k], p) {
      var i := (p - phs[k].offset) / 4;
      BlockBothWays(s, image, phs, k, i);
      assert BlockReturns(s, image, phs, k, i);
      FileWordBytes(CryptSegments(s, image, phs), CryptSegments(s, image, LoadableOnly(phs)), phs[k].offset + 4 * i, p);
    } else {
      CryptSegmentsOutside(s, image, phs, p, 1, p);
      CryptSegmentsOutside(s, image, LoadableOnly(phs), p, 1, p);
    }
  }

  /** Encrypting every header's range is encrypting the loadable segments if and only if the others cancel. */
  lemma OthersMatter(s: Table, image: seq<Byte>, phs: seq<Phdr>)
    requires OverlapInBlocks(phs) && AllInFile(phs, |image|)
    ensures AllInFile(LoadableOnly(phs), |image|)
    ensures CryptSegments(s, image, phs) == CryptSegments(s, image, LoadableOnly(phs)) <==> OthersCancel(s, image, phs)
  {
    hide CryptSegments, EncryptWord, FileWord, OverlapInBlocks, BlockReturns;
    LoadableOnlyFits(phs, |image|);
    var both, only := CryptSegments(s, image, phs), CryptSegments(s, image, LoadableOnly(phs));
    if both == only {
      forall k, i: nat | 0 <= k < |phs| && i < Blocks(phs[k])
        ensures BlockReturns(s, image, phs, k, i)
      {
        BlockBothWays(s, image, phs, k, i);
      }
    }
    if OthersCancel(s, image, phs) {
      forall p | 0 <= p < |image|
        ensures both[p] == only[p]
      {
        ByteBothWays(s, image, phs, p);
      }
    }
  }

  // ----- One other header, any overlap -----

  lemma BlockInjective(s: Table, a: seq<Byte>, b: seq<Byte>, off: nat)
    requires off + 4 <= |a| == |b| && CryptBlock(s, a, off) == CryptBlock(s, b, off)
    ensures a == b
  {
    hide CryptBlock, EncryptWord, DecryptWord, FileWord;
    CryptBlockWord(s, a, off);
    CryptBlockWord(s, b, off);
    WordsPermuted(s, FileWord(a, off));
    WordsPermuted(s, FileWord(b, off));
    forall p | 0 <= p < |a|
      ensures a[p] == b[p]
    {
      if off <= p < off + 4 {
        FileWordBytes(a, b, off, p);
      } else {
        assert CryptBlock(s, a, off)[p] == CryptBlock(s, b, off)[p];
      }
    }
  }

  lemma {:induction false} RangeInjective(s: Table, a: seq<Byte>, b: seq<Byte>, off: nat, n: nat)
    requires |a| == |b| && (n == 0 || off + 4 * n <= |a|) && CryptRange(s, a, off, n) == CryptRange(s, b, off, n)
    ensures a == b
    decreases n
  {
    hide CryptBlock;
    if n > 0 {
      RangeInjective(s, CryptBlock(s, a, off), CryptBlock(s, b, off), off + 4, n - 1);
      BlockInjective(s, a, b, off);
    }
  }

  /** Different files stay different, whatever ranges are encrypted. */
  lemma {:induction false} SegmentsInjective(s: Table, a: seq<Byte>, b: seq<Byte>, phs: seq<Phdr>)
    requires |a| == |b| && AllInFile(phs, |a|) && CryptSegments(s, a, phs) == CryptSegments(s, b, phs)
    ensures a == b
    decreases |phs|
  {
    hide CryptRange;
    if phs != [] {
      var off, n := phs[0].offset, Blocks(phs[0]);
      SegmentsInjective(s, CryptRange(s, a, off, n), CryptRange(s, b, off, n), phs[1..]);
      RangeInjective(s, a, b, off, n);
    }
  }

  lemma {:induction false} SegmentsAppend(s: Table, image: seq<Byte>, phs: seq<Phdr>, more: seq<Phdr>)
    requires AllInFile(phs + more, |image|)
    ensures AllInFile(phs, |image|) && AllInFile(more, |image|)
    ensures CryptSegments(s, image, phs + more) == CryptSegments(s, CryptSegments(s, image, phs), more)
    decreases |phs|
  {
    hide CryptRange;
    assert forall i :: 0 <= i < |phs| ==> phs[i] == (phs + more)[i];
    assert forall i :: 0 <= i < |more| ==> more[i] == (phs + more)[|phs| + i];
    if phs == [] {
      assert phs + more == more;
    } else {
      assert (phs + more)[0] == phs[0] && (phs + more)[1..] == phs[1..] + more;
      SegmentsAppend(s, CryptRange(s, image, phs[0].offset, Blocks(phs[0])), phs[1..], more);
    }
  }

  predicate RangeFixed(s: Table, image: seq<Byte>, ph: Phdr)
    requires InFile(ph, |image|)
  {
    forall i :: 0 <= i < Blocks(ph) ==> WordFixed(s, image, ph.offset + 4 * i)
  }

  predicate WordFixed(s: Table, image: seq<Byte>, o: nat)
    requires o + 4 <= |image|
  {
    EncryptWord(s, FileWord(image, o)) == FileWord(image, o)
  }

  lemma RangeFixedIff(s: Table, image: seq<Byte>, ph: Phdr)
    requires InFile(ph, |image|)
    ensures CryptRange(s, image, ph.offset, Blocks(ph)) == image <==> RangeFixed(s, image, ph)
  {
    hide CryptRange, EncryptWord, FileWord;
    var image' := CryptRange(s, image, ph.offset, Blocks(ph));
    forall i: nat | i < Blocks(ph)
      ensures FileWord(image', ph.offset + 4 * i) == EncryptWord(s, FileWord(image, ph.offset + 4 * i))
    {
      CryptRangeWords(s, image, ph.offset, Blocks(ph), i);
    }
    if RangeFixed(s, image, ph) {
      forall p | 0 <= p < |image|
        ensures image'[p] == image[p]
      {
        if ph.offset <= p < ph.offset + Span(ph) {
          var i := (p - ph.offset) / 4;
          assert WordFixed(s, image, ph.offset + 4 * i);
          FileWordBytes(image', image, ph.offset + 4 * i, p);
        } else {
          CryptRangeOutside(s, image, ph.offset, Blocks(ph), p);
        }
      }
    }
  }

  predicate NoOthers(phs: seq<Phdr>) {
    forall i :: 0 <= i < |phs| ==> phs[i].ptype == PT_LOAD || phs[i].filesz == 0
  }

  /** With one header of another type, and any overlap at all, it is harmless if and only if its blocks are
      fixed points as the headers before it have left them. */
  lemma OneOtherMatters(s: Table, image: seq<Byte>, before: seq<Phdr>, ph: Phdr, after: seq<Phdr>)
    requires NoOthers(before) && NoOthers(after) && ph.ptype != PT_LOAD && AllInFile(before + ([ph] + after), |image|)
    ensures AllInFile(LoadableOnly(before + ([ph] + after)), |image|) && AllInFile(before, |image|) && InFile(ph, |image|)
    ensures var phs := before + ([ph] + after);
            CryptSegments(s, image, phs) == CryptSegments(s, image, LoadableOnly(phs)) <==>
            RangeFixed(s, CryptSegments(s, image, before), ph)
  {
    hide CryptSegments, CryptRange, RangeFixed;
    var phs, none := before + ([ph] + after), ph.(filesz := 0);
    LoadableOnlyFits(phs, |image|);
    assert LoadableOnly(phs) == before + ([none] + after);
    SegmentsAppend(s, image, before, [ph] + after);
    SegmentsAppend(s, image, before, [none] + after);
    assert ([ph] + after)[0] == ph;
    var seen := CryptSegments(s, image, before);
    FirstSegment(s, seen, ph, after);
    FirstSegment(s, seen, none, after);
    var crypted := CryptRange(s, seen, ph.offset, Blocks(ph));
    assert CryptRange(s, seen, none.offset, 0) == seen by {
      NothingEncrypted(s, seen, none.offset);
    }
    if CryptSegments(s, crypted, after) == CryptSegments(s, seen, after) {
      SegmentsInjective(s, crypted, seen, after);
    }
    RangeFixedIff(s, seen, ph);
  }

  lemma NothingEncrypted(s: Table, image: seq<Byte>, off: nat)
    ensures CryptRange(s, image, off, 0) == image
  {
  }

  lemma FirstSegment(s: Table, image: seq<Byte>, ph: Phdr, rest: seq<Phdr>)
    requires AllInFile([ph] + rest, |image|)
    ensures InFile(ph, |image|) && AllInFile(rest, |image|)
    ensures CryptSegments(s, image, [ph] + rest) == CryptSegments(s, CryptRange(s, image, ph.offset, Blocks(ph)), rest)
  {
    hide CryptRange;
    assert ([ph] + rest)[0] == ph && ([ph] + rest)[1..] == rest;
  }

  // ----- The program against its description -----

  /** Every loadable header passes the test meant for it, and there is one. */
  predicate LoadablesAccepted(phs: seq<Phdr>, n: nat) {
    && (exists i :: 0 <= i < |phs| && phs[i].ptype == PT_LOAD)
    && (forall i :: 0 <= i < |phs| && phs[i].ptype == PT_LOAD ==> Encryptable(phs[i], n))
  }

  /** For any headers: apart from refusals and bounds, it is a matter of what the others' ranges do. */
  lemma IntendedAny(s: Table, image: seq<Byte>, phs: seq<Phdr>)
    ensures CryptFile(s, image, phs) == IntendedFile(s, image, phs) <==>
            if !FirstHeaderAccepted(phs, |image|) then !LoadablesAccepted(phs, |image|)
            else
              && LoadablesAccepted(phs, |image|) && AllInFile(phs, |image|)
              && CryptSegments(s, image, phs) == CryptSegments(s, image, LoadableOnly(phs))
  {
    hide CryptSegments;
  }

  /** The program does what it is for exactly when it refuses a file that should be refused, or accepts one
      that should be accepted, all of whose ranges lie in the file, and the headers of other types cancel. */
  lemma IntendedIff(s: Table, image: seq<Byte>, phs: seq<Phdr>)
    requires OverlapInBlocks(phs)
    ensures CryptFile(s, image, phs) == IntendedFile(s, image, phs) <==>
            if !FirstHeaderAccepted(phs, |image|) then !LoadablesAccepted(phs, |image|)
            else LoadablesAccepted(phs, |image|) && AllInFile(phs, |image|) && OthersCancel(s, image, phs)
  {
    hide CryptSegments, OthersCancel, OverlapInBlocks, IntendedFile, CryptFile;
    IntendedAny(s, image, phs);
    if AllInFile(phs, |image|) {
      OthersMatter(s, image, phs);
    }
  }

  /** Two tables that differ in the last round do not both leave a word as it is. */
  lemma OneTableChanges(s: Table, w: Word)
    ensures EncryptWord(s, w) != w || EncryptWord(s[24 := Add16(s[24], 1)], w) != w
  {
    hide Rol, Xor16, EncryptRounds;
    var s' := s[24 := Add16(s[24], 1)];
    var x := Whiten(s, BlockOfWord(w));
    SameRounds(s, s', 11, x);
    RoundsStep(s, 12, x);
    RoundsStep(s', 12, x);
    WordBlockInverse(w, Encrypt(s, BlockOfWord(w)));
    WordBlockInverse(w, Encrypt(s', BlockOfWord(w)));
  }

  lemma RoundsStep(s: Table, n: nat, x: Block)
    requires 0 < n <= ROUNDS
    ensures EncryptRounds(s, n, x) == EncryptRound(s, n, EncryptRounds(s, n - 1, x))
  {
  }

  lemma {:induction false} SameRounds(s: Table, s': Table, n: nat, x: Block)
    requires n < ROUNDS && s[..24] == s'[..24]
    ensures EncryptRounds(s, n, x) == EncryptRounds(s', n, x)
    decreases n
  {
    hide Rol, Xor16, Add16;
    if n > 0 {
      SameRounds(s, s', n - 1, x);
      assert s[2 * n] == s[..24][2 * n] && s[2 * n + 1] == s[..24][2 * n + 1];
      assert s'[2 * n] == s'[..24][2 * n] && s'[2 * n + 1] == s'[..24][2 * n + 1];
    }
  }

  /** So for every file that is encrypted and has a block under one header of another type, and any number
      of loadable ones, there is a table under which the output is not what it is meant to be. */
  lemma OtherTypeEncrypted(image: seq<Byte>, phs: seq<Phdr>, k: nat, i: nat) returns (s: Table)
    requires OverlapInBlocks(phs) && AllInFile(phs, |image|) && FirstHeaderAccepted(phs, |image|)
    requires k < |phs| && i < Blocks(phs[k]) && CoveringOthers(phs, phs[k].offset + 4 * i) == 1
    ensures CryptFile(s, image, phs).Encrypted? && CryptFile(s, image, phs) != IntendedFile(s, image, phs)
  {
    hide CryptSegments, EncryptWord, FileWord, OverlapInBlocks, IntendedFile, CoveringOthers;
    var w := FileWord(image, phs[k].offset + 4 * i);
    s := seq(26, _ => 0);
    OneTableChanges(s, w);
    if EncryptWord(s, w) == w {
      s := s[24 := Add16(s[24], 1)];
    }
    assert EncryptTimes(s, 1, w) == EncryptWord(s, EncryptTimes(s, 0, w));
    assert !BlockReturns(s, image, phs, k, i);
    IntendedIff(s, image, phs);
  }

  /** The sizes of the ELF header and of a program header. */
  const EHDR_SIZE := 52
  const PHDR_SIZE := 32

  /** The file has room for an ELF header and these program headers in front of every range. */
  predicate BehindHeaders(phs: seq<Phdr>, n: nat) {
    && EHDR_SIZE + PHDR_SIZE * |phs| <= n
    && forall i :: 0 <= i < |phs| ==> phs[i].offset >= EHDR_SIZE + PHDR_SIZE * |phs|
  }

  /** There are such files, whatever else is in them: behind the headers one word of code, then one word
      under a PT_NULL header. */
  lemma NullHeaderEncrypted(image: seq<Byte>) returns (phs: seq<Phdr>, s: Table)
    requires |image| == 125
    ensures |phs| == 2 && phs[0].ptype == PT_LOAD && phs[1].ptype == PT_NULL && BehindHeaders(phs, |image|)
    ensures PairwiseDisjoint(phs)
    ensures CryptFile(s, image, phs).Encrypted? && CryptFile(s, image, phs) != IntendedFile(s, image, phs)
  {
    hide CryptFile, IntendedFile;
    phs := [Phdr(PT_LOAD, 116, 0x1000, 4, 4), Phdr(PT_NULL, 120, 0, 4, 4)];
    CoveredOnce(phs);
    s := OtherTypeEncrypted(image, phs, 1, 0);
  }

  /** And files with a range under both headers, which is encrypted twice. */
  lemma OverlapEncryptedTwice(image: seq<Byte>) returns (phs: seq<Phdr>, s: Table)
    requires |image| == 125
    ensures |phs| == 2 && phs[0].ptype == PT_LOAD && phs[1].ptype == PT_NULL && BehindHeaders(phs, |image|)
    ensures phs[0].offset == phs[1].offset && phs[0].filesz == phs[1].filesz > 0
    ensures CryptFile(s, image, phs).Encrypted? && CryptFile(s, image, phs) != IntendedFile(s, image, phs)
  {
    hide CryptFile, IntendedFile;
    phs := [Phdr(PT_LOAD, 116, 0x1000, 4, 4), Phdr(PT_NULL, 116, 0, 4, 4)];
    CoveredOnce(phs);
    s := OtherTypeEncrypted(image, phs, 1, 0);
  }

  lemma CoveredOnce(phs: seq<Phdr>)
    requires |phs| == 2 && phs[0].ptype == PT_LOAD && phs[1].ptype != PT_LOAD && phs[1].filesz > 0
    ensures CoveringOthers(phs, phs[1].offset) == 1
  {
    var o: nat, last := phs[1].offset, phs[1..];
    assert last == [phs[1]] && last[1..] == [];
    assert CoveringOthers(last, o) == 1 + CoveringOthers(last[1..], o);
  }

  /** A file that is not rejected although its second header reaches past its end. */
  lemma SecondHeaderUnchecked(s: Table, image: seq<Byte>) returns (phs: seq<Phdr>)
    requires |image| == 125
    ensures |phs| == 2 && PairwiseDisjoint(phs) && BehindHeaders(phs, |image|)
    ensures FirstHeaderAccepted(phs, |image|) && !InFile(phs[1], |image|)
    ensures CryptFile(s, image, phs) == OutOfBounds && IntendedFile(s, image, phs) == Rejected
  {
    phs := [Phdr(PT_LOAD, 116, 0x1000, 4, 4), Phdr(PT_LOAD, 120, 0x2000, 8, 8)];
    assert !Encryptable(phs[1], |image|);
  }

  // ----- The loops -----

  datatype Status = ENCRYPTED | REJECTED | OUT_OF_BOUNDS

  method CryptSegment(s: array<Half>, elf: array<Byte>, ph: Phdr)
    requires s.Length == 26 && InFile(ph, elf.Length)
    modifies elf
    ensures elf[..] == CryptRange(s[..], old(elf[..]), ph.offset, Blocks(ph))
  {
    hide Encrypt, E.WithBlock, E.BlockAt;
    var i: nat := 0;
    ghost var whole := CryptRange(s[..], elf[..], ph.offset, Blocks(ph));
    while i < ph.filesz
      invariant i <= Span(ph) && i % 4 == 0
      invariant whole == CryptRange(s[..], elf[..], ph.offset + i, Blocks(ph) - i / 4)
      decreases Span(ph) - i
    {
      E.EcbEncrypt(s, elf, ph.offset + i, elf, ph.offset + i);
      i := i + 4;
    }
  }

  /** The segment loop of the program: encrypts the file in `elf` in place. */
  method CryptInPlace(s: array<Half>, elf: array<Byte>, phs: seq<Phdr>) returns (status: Status)
    requires s.Length == 26
    modifies elf
    ensures match CryptFile(s[..], old(elf[..]), phs)
            case Encrypted(image) => status == ENCRYPTED && elf[..] == image
            case Rejected => status == REJECTED && elf[..] == old(elf[..])
            case OutOfBounds => status == OUT_OF_BOUNDS
  {
    hide CryptRange;
    ghost var before := elf[..];
    ghost var fits := AllInFile(phs, elf.Length);
    var cnt := 0;
    for i := 0 to |phs|
      invariant cnt == if phs != [] && phs[0].ptype == PT_LOAD then i else 0
      invariant cnt > 0 ==> FirstHeaderAccepted(phs, elf.Length)
      invariant cnt > 0 ==> forall j :: 0 <= j < i ==> InFile(phs[j], elf.Length)
      invariant cnt == 0 ==> elf[..] == before
      invariant cnt > 0 && fits ==> CryptSegments(s[..], before, phs) == CryptSegments(s[..], elf[..], phs[i..])
    {
      var ph := phs[0];
      if ph.ptype != PT_LOAD {
        continue;
      }
      cnt := cnt + 1;
      if ToWord(ph.offset + ph.filesz) >= elf.Length {
        return REJECTED;
      }
      if ph.filesz % 4 != 0 || ph.memsz % 4 != 0 {
        return REJECTED;
      }
      if !InFile(phs[i], elf.Length) {
        return OUT_OF_BOUNDS;
      }
      assert phs[i..][0] == phs[i] && phs[i..][1..] == phs[i + 1..];
      assert phs[0..] == phs;
      CryptSegment(s, elf, phs[i]);
    }
    status := if cnt > 0 then ENCRYPTED else REJECTED;
  }
}
