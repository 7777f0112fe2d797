/** Transfers of byte blocks between the host and the guest. */
module BulkCopy {
  import opened Bits
  import opened Memory

  /** Refused is the -1 result. Escaped is an address exception thrown in the middle of the copy, which
      nothing in the copy functions catches. */
  datatype CopyOutResult = Written(mem: Ram) | WriteRefused | WriteEscaped(mem: Ram)
  datatype CopyInResult = Read(bytes: seq<Byte>) | ReadRefused | ReadEscaped(bytes: seq<Byte>)

  /** The bytes of a host buffer; its length is a 32-bit count. */
  type Buffer = s: seq<Byte> | |s| < 0x1_0000_0000 witness []

  /** The bound check, on a sum that wraps. */
  predicate InRange(mem: Ram, a: Word, n: nat) {
    ToWord(a + n) < MemSize(mem)
  }

  function PokeAll(c: Codec, mem: Ram, dst: Word, bytes: Buffer): CopyOutResult
    decreases |bytes|
  {
    if bytes == [] then Written(mem)
    else match PokeUb(c, mem, dst, bytes[0])
      case Throw(_) => WriteEscaped(mem)
      case Value(mem') => PokeAll(c, mem', ToWord(dst + 1), bytes[1..])
  }

  function PeekAll(c: Codec, mem: Ram, src: Word, n: nat): CopyInResult
    decreases n
  {
    if n == 0 then Read([])
    else match PeekUb(c, mem, src)
      case Throw(_) => ReadEscaped([])
      case Value(b) =>
        match PeekAll(c, mem, ToWord(src + 1), n - 1)
        case Read(rest) => Read([b] + rest)
        case ReadEscaped(rest) => ReadEscaped([b] + rest)
        case ReadRefused => ReadRefused
  }

  function CopyOut(c: Codec, mem: Ram, dst: Word, bytes: Buffer): CopyOutResult {
    if !InRange(mem, dst, |bytes|) then WriteRefused else PokeAll(c, mem, dst, bytes)
  }

  function CopyIn(c: Codec, mem: Ram, src: Word, n: Word): CopyInResult {
    if !InRange(mem, src, n) then ReadRefused else PeekAll(c, mem, src, n)
  }

  /** Exactly the bytes [dst, dst + |bytes|) have changed, to `bytes`. */
  ghost predicate BlockWritten(c: Codec, mem: Ram, mem': Ram, dst: nat, bytes: seq<Byte>) {
    && SameControlBlock(mem, mem')
    && (forall b: nat {:trigger ByteAt(c, mem', b)} :: GuestByte(mem, b) ==>
         ByteAt(c, mem', b) == if dst <= b < dst + |bytes| then bytes[b - dst] else ByteAt(c, mem, b))
  }

  lemma BlockPrepend(c: Codec, mem: Ram, mid: Ram, last: Ram, dst: Word, bytes: Buffer)
    requires bytes != []
    requires BytesWritten(c, mem, mid, dst, 1, bytes[0])
    requires BlockWritten(c, mid, last, dst + 1, bytes[1..])
    ensures BlockWritten(c, mem, last, dst, bytes)
  {
    hide ByteAt;
    forall b: nat {:trigger ByteAt(c, last, b)} | GuestByte(mem, b)
      ensures ByteAt(c, last, b) == if dst <= b < dst + |bytes| then bytes[b - dst] else ByteAt(c, mem, b)
    {
      assert ByteAt(c, mid, b) == if dst <= b < dst + 1 then ByteOf(bytes[0], b - dst) else ByteAt(c, mem, b);
    }
  }

  /** What a copy that does not fit leaves: the part up to the end of memory is written, or nothing if it
      starts outside. */
  ghost predicate EscapedWrite(c: Codec, mem: Ram, mem': Ram, dst: Word, bytes: Buffer) {
    if !GuestByte(mem, dst) then mem' == mem
    else MemSize(mem) - dst < |bytes| && BlockWritten(c, mem, mem', dst, bytes[..MemSize(mem) - dst])
  }

  /** A copy inside guest memory writes its block and nothing else; any other one hits an address error. */
  lemma {:induction false} PokeAllBlock(c: Codec, mem: Ram, dst: Word, bytes: Buffer)
    requires Sound(c)
    ensures var r := PokeAll(c, mem, dst, bytes);
            if bytes == [] || (LOWBASE <= dst && dst + |bytes| <= MemSize(mem))
            then r.Written? && BlockWritten(c, mem, r.mem, dst, bytes)
            else r.WriteEscaped? && EscapedWrite(c, mem, r.mem, dst, bytes)
    decreases |bytes|
  {
    hide ByteAt, PokeUb;
    if bytes != [] {
      PokeUbWritesByte(c, mem, dst, bytes[0]);
      if ValidAddress(mem, dst, 0) {
        var mid := PokeUb(c, mem, dst, bytes[0]).value;
        PokeAllBlock(c, mid, dst + 1, bytes[1..]);
        var r := PokeAll(c, mid, dst + 1, bytes[1..]);
        if r.Written? {
          BlockPrepend(c, mem, mid, r.mem, dst, bytes);
        } else if GuestByte(mem, dst + 1) {
          var n := MemSize(mem) - dst;
          assert bytes[..n][1..] == bytes[1..][..n - 1];
          BlockPrepend(c, mem, mid, r.mem, dst, bytes[..n]);
        } else {
          assert bytes[..1][1..] == [];
          BlockPrepend(c, mem, mid, r.mem, dst, bytes[..1]);
        }
      }
    }
  }

  /** The bytes read before a copy hits the end of memory; none if it starts outside. */
  ghost predicate EscapedBytes(c: Codec, mem: Ram, src: Word, bytes: seq<Byte>) {
    && |bytes| == (if GuestByte(mem, src) then MemSize(mem) - src else 0)
    && forall k :: 0 <= k < |bytes| ==> bytes[k] == ByteAt(c, mem, src + k)
  }

  lemma {:induction false} PeekAllBlock(c: Codec, mem: Ram, src: Word, n: nat)
    ensures var r := PeekAll(c, mem, src, n);
            if n == 0 || (LOWBASE <= src && src + n <= MemSize(mem))
            then r.Read? && |r.bytes| == n && forall k :: 0 <= k < n ==> r.bytes[k] == ByteAt(c, mem, src + k)
            else r.ReadEscaped? && EscapedBytes(c, mem, src, r.bytes)
    decreases n
  {
    hide ByteAt, PeekUb;
    if n > 0 {
      PeekUbReadsByte(c, mem, src);
      if GuestByte(mem, src) {
        PeekAllBlock(c, mem, src + 1, n - 1);
        var rest := PeekAll(c, mem, src + 1, n - 1);
        if !rest.ReadRefused? {
          forall k | 0 <= k < 1 + |rest.bytes|
            ensures ([PeekUb(c, mem, src).value] + rest.bytes)[k] == ByteAt(c, mem, src + k)
          {
            if k > 0 {
              assert ByteAt(c, mem, (src + 1) + (k - 1)) == rest.bytes[k - 1];
            }
          }
        }
      }
    }
  }

  /** What the caller can check beforehand: the block starts in the guest's range and does not wrap. */
  predicate Contained(a: Word, n: nat) {
    n == 0 || (LOWBASE <= a && a + n < WORD)
  }

  /** The three results of a transfer to the guest. The documented promise, success or -1 with nothing
      changed, holds exactly when the range is refused by the wrapping sum or is Contained. */
  lemma CopyOutResults(c: Codec, mem: Ram, dst: Word, bytes: Buffer)
    requires Sound(c)
    ensures var r := CopyOut(c, mem, dst, bytes);
            && (r.WriteRefused? <==> ToWord(dst + |bytes|) >= MemSize(mem))
            && (r.WriteEscaped? <==> ToWord(dst + |bytes|) < MemSize(mem) && !Contained(dst, |bytes|))
            && (r.Written? ==> BlockWritten(c, mem, r.mem, dst, bytes))
            && (r.WriteEscaped? ==> EscapedWrite(c, mem, r.mem, dst, bytes))
  {
    hide BlockWritten, PokeAll, EscapedWrite;
    PokeAllBlock(c, mem, dst, bytes);
  }

  lemma CopyInResults(c: Codec, mem: Ram, src: Word, n: Word)
    ensures var r := CopyIn(c, mem, src, n);
            && (r.ReadRefused? <==> ToWord(src + n) >= MemSize(mem))
            && (r.ReadEscaped? <==> ToWord(src + n) < MemSize(mem) && !Contained(src, n))
            && (r.ReadEscaped? ==> EscapedBytes(c, mem, src, r.bytes))
            && (r.Read? ==> |r.bytes| == n && (n > 0 ==> LOWBASE <= src && src + n < MemSize(mem)))
            && (r.Read? ==> forall k :: 0 <= k < n ==> r.bytes[k] == ByteAt(c, mem, src + k))
  {
    hide ByteAt, PeekAll;
    PeekAllBlock(c, mem, src, n);
  }

  /** The bytes of the block are guest bytes. */
  predicate Inside(mem: Ram, a: Word, n: nat) {
    n == 0 || (LOWBASE <= a && a + n <= MemSize(mem))
  }

  /** What is promised, success for a block inside guest memory and a refusal for any other, is kept by
      both directions exactly for the blocks on which the wrapping bound check is right. */
  lemma PromiseIff(c: Codec, mem: Ram, a: Word, bytes: Buffer)
    requires Sound(c)
    ensures (if Inside(mem, a, |bytes|) then CopyOut(c, mem, a, bytes).Written? else CopyOut(c, mem, a, bytes) == WriteRefused)
            <==> (Inside(mem, a, |bytes|) <==> InRange(mem, a, |bytes|))
    ensures (if Inside(mem, a, |bytes|) then CopyIn(c, mem, a, |bytes|).Read? else CopyIn(c, mem, a, |bytes|) == ReadRefused)
            <==> (Inside(mem, a, |bytes|) <==> InRange(mem, a, |bytes|))
  {
    hide BlockWritten, PokeAll, EscapedWrite, PeekAll;
    PokeAllBlock(c, mem, a, bytes);
    PeekAllBlock(c, mem, a, |bytes|);
  }

  /** What was copied out is copied back in, through any sound codec. */
  lemma CopyRoundTrip(c: Codec, mem: Ram, dst: Word, bytes: Buffer)
    requires Sound(c) && CopyOut(c, mem, dst, bytes).Written?
    ensures CopyIn(c, CopyOut(c, mem, dst, bytes).mem, dst, |bytes|) == Read(bytes)
  {
    hide ByteAt, PokeAll, PeekAll;
    var mem' := CopyOut(c, mem, dst, bytes).mem;
    PokeAllBlock(c, mem, dst, bytes);
    PeekAllBlock(c, mem', dst, |bytes|);
    var r := PeekAll(c, mem', dst, |bytes|);
    assert r.bytes == bytes by {
      forall k | 0 <= k < |bytes|
        ensures r.bytes[k] == bytes[k]
      {
        assert r.bytes[k] == ByteAt(c, mem', dst + k);
      }
    }
  }

  /** A block that ends at the very end of memory is refused although it would fit. */
  lemma LastByteRefused(c: Codec, mem: Ram, b: Byte)
    ensures CopyOut(c, mem, MemSize(mem) - 1, [b]) == WriteRefused
    ensures PokeUb(c, mem, MemSize(mem) - 1, b).Value?
  {
  }

  /** A length for which dst + n wraps passes the check, and the copy escapes after changing memory. */
  lemma WrapEscapes(c: Codec, mem: Ram, bytes: Buffer)
    requires Sound(c) && MemSize(mem) - 1 + |bytes| == WORD
    requires bytes[0] != ByteAt(c, mem, MemSize(mem) - 1)
    ensures var r := CopyOut(c, mem, MemSize(mem) - 1, bytes);
            r.WriteEscaped? && |r.mem| == |mem|
            && ByteAt(c, r.mem, MemSize(mem) - 1) != ByteAt(c, mem, MemSize(mem) - 1)
  {
    hide ByteAt, PokeUb, PokeAll;
    var last := MemSize(mem) - 1;
    PokeUbWritesByte(c, mem, last, bytes[0]);
    var mid := PokeUb(c, mem, last, bytes[0]).value;
    assert ByteAt(c, mid, last) == ByteOf(bytes[0], 0);
    PokeAllFirst(c, mem, last, bytes, mid);
    PokeUbWritesByte(c, mid, last + 1, bytes[1]);
    PokeAllFault(c, mid, last + 1, bytes[1..]);
  }

  lemma PokeAllFirst(c: Codec, mem: Ram, dst: Word, bytes: Buffer, mid: Ram)
    requires bytes != [] && PokeUb(c, mem, dst, bytes[0]) == Value(mid)
    ensures PokeAll(c, mem, dst, bytes) == PokeAll(c, mid, ToWord(dst + 1), bytes[1..])
  {
    hide PokeUb;
  }

  lemma PokeAllFault(c: Codec, mem: Ram, dst: Word, bytes: Buffer)
    requires bytes != [] && PokeUb(c, mem, dst, bytes[0]).Throw?
    ensures PokeAll(c, mem, dst, bytes) == WriteEscaped(mem)
  {
    hide PokeUb;
  }
}
