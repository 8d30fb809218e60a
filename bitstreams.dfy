/** The bit streams layered over byte streams: `ibstream` reads bits most significant
    first from an input byte stream, `obstream` packs bits most significant first into
    an output byte stream. */
module BitStreams {
  import opened Bits

  /** The range of the source's `char` parameters (highest bit index, bit count). */
  predicate IsChar(x: int) { -128 <= x < 128 }

  /** `unsigned int` arithmetic wraps modulo 2^32. */
  const UIntModulus: int := 0x1_0000_0000

  /** The source's `bool` to integer promotion in `(buf << 1) | bit`. */
  function BitValue(b: bool): bv8 { if b then 1 else 0 }

  /** What the writer's fields mean: the bytes sent so far followed by the pending bits are
      everything written; the pending bits (fewer than eight) sit in the low bits of `buf`;
      `cursor` counts the bits written, as a 32-bit unsigned counter. */
  ghost predicate WriterState(out: seq<bv8>, buf: bv8, pending: seq<bool>, cursor: int, written: seq<bool>)
  {
    && |pending| < 8
    && written == BytesToBits(out) + pending
    && buf == Pack(pending)
    && cursor == |written| % UIntModulus
  }

  /** `obstream`: accumulates bits in `buf` and sends a byte to the underlying stream once
      eight bits have accumulated. It has no flush: a trailing partial byte stays in `buf`. */
  class BitWriter {
    /** The bytes sent to the underlying output stream so far. */
    var out: seq<bv8>
    var buf: bv8
    var shift: int
    var cursor: int
    /** Every bit written, in order. */
    ghost var Written: seq<bool>
    /** The bits written since the last byte was sent. */
    ghost var Pending: seq<bool>

    ghost predicate Valid()
      reads this
    {
      && 0 <= shift < 8
      && |Pending| == shift
      && WriterState(out, buf, Pending, cursor, Written)
    }

    constructor ()
      ensures Valid() && Written == [] && out == []
    {
      out, buf, shift, cursor := [], 0, 0, 0;
      Written, Pending := [], [];
    }

    /** `obstream::bit`: the bit joins the pending ones; the eighth completes a byte, which
        is sent. */
    method PutBit(b: bool)
      requires Valid()
      modifies this
      ensures Valid()
      ensures Written == old(Written) + [b]
      ensures out == old(out) + if old(shift) == 7 then [Pack(old(Pending) + [b])] else []
    {
      if shift < 7 {
        PartialByteStep(out, buf, Pending, cursor, Written, b);
      } else {
        CompleteByteStep(out, buf, Pending, cursor, Written, b);
      }
      buf := (buf << 1) | BitValue(b);
      cursor := (cursor + 1) % UIntModulus;
      Written, Pending := Written + [b], Pending + [b];
      shift := shift + 1;
      if shift < 8 {
        return;
      }
      out := out + [buf];
      shift, buf := 0, 0;
      Pending := [];
    }

    /** `obstream::write(p, s)`: emits the `s + 1` bits `WriteBits(p, s)`, taking the bytes
        of `p` in memory order; `s` is the highest bit index, not a count. */
    method Write(p: seq<bv8>, s: int)
      requires Valid()
      requires IsChar(s) && s < 8 * |p|
      modifies this
      ensures Valid()
      ensures Written == old(Written) + WriteBits(p, s)
    {
      var i, t := 0, s;
      while t >= 0
        invariant Valid()
        invariant if s < 0 then i == 0 && t == s else 0 <= i <= s + 1 && t == s - i
        invariant Written == old(Written) + WriteBits(p, s)[..i]
      {
        WriteBitsStep(old(Written), p, s, i);
        PutBit(Bit(p[i / 8], t % 8));
        i, t := i + 1, t - 1;
      }
    }

    /** Not in `obstream`, which leaves a partial byte in `buf` for good: pads the pending
        bits with zero bits up to a whole byte, which is sent. Nothing happens when no bit
        is pending. */
    method Flush()
      requires Valid()
      modifies this
      ensures Valid() && Pending == []
      ensures Written == old(Written) + Zeros(if old(shift) == 0 then 0 else 8 - old(shift))
      ensures BytesToBits(out) == Written
    {
      ghost var w0, s0 := Written, shift;
      var n := if shift == 0 then 0 else 8 - shift;
      for i := 0 to n
        invariant Valid()
        invariant Written == w0 + Zeros(i)
        invariant s0 + i < 8 ==> shift == s0 + i
        invariant s0 + i == 8 ==> shift == 0
      {
        PutBit(false);
        assert Zeros(i + 1) == Zeros(i) + [false];
      }
      assert Pending == [];
    }
  }

  /** After `k` bits have been written, `k / 8` bytes have been sent, the other `k % 8`
      bits are pending, and the counter holds `k` modulo 2^32. */
  lemma WriterCounts(out: seq<bv8>, buf: bv8, pending: seq<bool>, cursor: int, written: seq<bool>)
    requires WriterState(out, buf, pending, cursor, written)
    ensures |out| == |written| / 8 && |pending| == |written| % 8
    ensures cursor == |written| % UIntModulus
    ensures written[..8 * |out|] == BytesToBits(out)
  {
    assert written[..8 * |out|] == BytesToBits(out);
  }

  /** An `obstream::bit` step that leaves the byte incomplete keeps the meaning of the fields. */
  lemma PartialByteStep(out: seq<bv8>, buf: bv8, pending: seq<bool>, cursor: int, written: seq<bool>, b: bool)
    requires WriterState(out, buf, pending, cursor, written) && |pending| < 7
    ensures WriterState(out, (buf << 1) | BitValue(b), pending + [b], (cursor + 1) % UIntModulus, written + [b])
  {
    ShiftInSnoc(0, pending, b);
    CounterStep(cursor, |written|);
    assert written + [b] == BytesToBits(out) + (pending + [b]);
  }

  /** An `obstream::bit` step that completes a byte sends exactly the pending bits and this one. */
  lemma CompleteByteStep(out: seq<bv8>, buf: bv8, pending: seq<bool>, cursor: int, written: seq<bool>, b: bool)
    requires WriterState(out, buf, pending, cursor, written) && |pending| == 7
    ensures (buf << 1) | BitValue(b) == Pack(pending + [b])
    ensures WriterState(out + [(buf << 1) | BitValue(b)], 0, [], (cursor + 1) % UIntModulus, written + [b])
  {
    ShiftInSnoc(0, pending, b);
    CounterStep(cursor, |written|);
    CompleteByte(out, pending + [b]);
    assert written + [b] == BytesToBits(out + [Pack(pending + [b])]) + [];
  }

  /** Incrementing a 32-bit unsigned counter of `n` gives the counter of `n + 1`. */
  lemma CounterStep(c: int, n: nat)
    requires c == n % UIntModulus
    ensures (c + 1) % UIntModulus == (n + 1) % UIntModulus
  {
  }

  /** Eight pending bits sent as one byte extend the sent bit stream by exactly those bits. */
  lemma CompleteByte(out: seq<bv8>, pending: seq<bool>)
    requires |pending| == 8
    ensures BytesToBits(out + [Pack(pending)]) == BytesToBits(out) + pending
  {
    ShiftInEight(0, pending);
    BytesToBitsAppend(out, [Pack(pending)]);
    assert BytesToBits([Pack(pending)]) == ByteToBits(Pack(pending));
  }

  /** What the reader's fields mean after `consumed` bits of `data` have been handed out:
      while bits remain, `buf` holds the byte the next bit comes from (the `pos`-th delivered)
      and `shift` indexes that bit; once all are consumed, `buf` keeps the last byte. */
  ghost predicate ReaderState(data: seq<bv8>, pos: nat, buf: bv8, shift: int, consumed: nat)
  {
    && 0 <= shift < 8
    && pos <= |data|
    && consumed <= 8 * |data|
    && (consumed < 8 * |data| ==>
          pos == consumed / 8 + 1 && buf == data[pos - 1] && shift == 7 - consumed % 8)
  }

  /** A bit from the middle of a byte is the next bit of the stream. */
  lemma MidByteStep(data: seq<bv8>, pos: nat, buf: bv8, shift: int, consumed: nat)
    requires ReaderState(data, pos, buf, shift, consumed) && consumed < 8 * |data| && shift > 0
    ensures Bit(buf, shift) == BytesToBits(data)[consumed]
    ensures ReaderState(data, pos, buf, shift - 1, consumed + 1)
  {
    BytesToBitsAt(data, consumed);
  }

  /** The last bit of a byte is the next bit of the stream, and the next byte (if any) is
      the one the following bit comes from. */
  lemma LastBitStep(data: seq<bv8>, pos: nat, buf: bv8, shift: int, consumed: nat)
    requires ReaderState(data, pos, buf, shift, consumed) && consumed < 8 * |data| && shift == 0
    ensures Bit(buf, shift) == BytesToBits(data)[consumed]
    ensures pos < |data| ==> ReaderState(data, pos + 1, data[pos], 7, consumed + 1)
    ensures pos == |data| ==> ReaderState(data, pos, buf, 7, consumed + 1)
  {
    BytesToBitsAt(data, consumed);
  }

  /** `ibstream`: hands out the bits of the underlying input stream most significant first,
      loading the next byte after the eighth bit of the current one. */
  class BitReader {
    /** The bytes of the underlying input stream. */
    const data: seq<bv8>
    /** How many bytes the underlying stream has delivered. */
    var pos: nat
    var buf: bv8
    var shift: int
    /** Declared and zeroed by the source, never updated. */
    var cursor: int
    /** How many bits have been handed out. */
    ghost var Consumed: nat

    ghost predicate Valid()
      reads this
    {
      cursor == 0 && ReaderState(data, pos, buf, shift, Consumed)
    }

    /** The bits not yet handed out. */
    ghost function Rest(): (r: seq<bool>)
      reads this
      requires Valid()
    {
      BytesToBits(data)[Consumed..]
    }

    /** The constructor preloads the first byte of the stream. */
    constructor (stream: seq<bv8>)
      ensures Valid() && data == stream && Consumed == 0
      ensures Rest() == BytesToBits(stream)
    {
      data, shift, cursor := stream, 7, 0;
      Consumed := 0;
      if |stream| > 0 {
        buf, pos := stream[0], 1;
      } else {
        pos := 0;
      }
    }

    /** `ibstream::bit`: the next bit of the stream; after the eighth bit of a byte, `shift`
        goes back to 7 and the next byte is loaded (a load past the end leaves `buf` as it was). */
    method GetBit() returns (b: bool)
      requires Valid() && |Rest()| > 0
      modifies this
      ensures Valid()
      ensures [b] + Rest() == old(Rest())
    {
      if shift > 0 {
        MidByteStep(data, pos, buf, shift, Consumed);
      } else {
        LastBitStep(data, pos, buf, shift, Consumed);
      }
      b := Bit(buf, shift);
      shift := shift - 1;
      Consumed := Consumed + 1;
      if shift < 0 {
        shift := 7;
        if pos < |data| {
          buf, pos := data[pos], pos + 1;
        }
      }
    }

    /** `ibstream::read(p, size)`: shifts the next `size` bits into `p`, bit `s` into the
        byte `p[s >> 3]`; `size` is a bit count. */
    method Read(p: array<bv8>, size: int)
      requires Valid()
      requires IsChar(size) && size <= 8 * p.Length && size <= |Rest()|
      modifies this, p
      ensures Valid()
      ensures var n := if size < 0 then 0 else size;
              Rest() == old(Rest())[n..] && p[..] == ReadInto(old(p[..]), old(Rest())[..n])
    {
      ghost var bits, p0 := Rest(), p[..];
      ghost var n := if size < 0 then 0 else size;
      var s := 0;
      while s < size
        invariant Valid()
        invariant 0 <= s <= n
        invariant Rest() == bits[s..]
        invariant p[..] == ReadInto(p0, bits[..s])
      {
        var b := GetBit();
        assert bits[..s + 1] == bits[..s] + [b];
        ReadIntoSnoc(p0, bits[..s], b);
        p[s / 8] := (p[s / 8] << 1) | (if b then 1 else 0);
        s := s + 1;
      }
      assert s == n;
    }
  }
}
