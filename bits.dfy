/** Bit-level views of bytes: the packing conventions the bit reader and the
    bit writer share. Bits travel most significant first; a byte is `bv8`. */
module Bits {

  datatype Option<+T> = None | Some(value: T)

  /** Bit `k` of `b`, counting from the least significant: `(b >> k) & 1`. */
  function Bit(b: bv8, k: nat): bool
    requires k < 8
  {
    (b >> k) & 1 == 1
  }

  /** The eight bits of a byte, most significant first. */
  function ByteToBits(b: bv8): seq<bool>
  {
    seq(8, j requires 0 <= j < 8 => Bit(b, 7 - j))
  }

  /** A byte stream seen as a bit stream: each byte in turn, most significant bit first. */
  function BytesToBits(bs: seq<bv8>): (r: seq<bool>)
    ensures |r| == 8 * |bs|
  {
    if bs == [] then [] else ByteToBits(bs[0]) + BytesToBits(bs[1..])
  }

  /** `x` after each bit of `bits` has been shifted in from the right, in order:
      the update `x = (x << 1) | bit` that both streams apply to a byte. */
  function ShiftIn(x: bv8, bits: seq<bool>): bv8
  {
    if bits == [] then x
    else (ShiftIn(x, bits[..|bits| - 1]) << 1) | (if bits[|bits| - 1] then 1 else 0)
  }

  /** The byte whose low bits are `bits` (most significant first) and whose other bits are 0. */
  function Pack(bits: seq<bool>): bv8
  {
    ShiftIn(0, bits)
  }

  /** Bits grouped eight at a time into bytes, each group most significant bit first. */
  function BitsToBytes(bits: seq<bool>): (r: seq<bv8>)
    requires |bits| % 8 == 0
    ensures 8 * |r| == |bits|
  {
    if bits == [] then [] else [Pack(bits[..8])] + BitsToBytes(bits[8..])
  }

  /** The bits `obstream::write(p, s)` emits: `s + 1` bits for a highest index `s`, the
      i-th of them being bit `(s - i) & 7` of the byte `p[i >> 3]`. Nothing for `s < 0`. */
  function WriteBits(p: seq<bv8>, s: int): (r: seq<bool>)
    requires s < 8 * |p|
    ensures |r| == if s < 0 then 0 else s + 1
  {
    if s < 0 then [] else seq(s + 1, i requires 0 <= i <= s => Bit(p[i / 8], (s - i) % 8))
  }

  function Min(a: int, b: int): int { if a <= b then a else b }

  /** The bits among `bits` that `ibstream::read` shifts into the byte `p[j]`: those at
      positions `s` with `s >> 3 == j`. */
  function Chunk(bits: seq<bool>, j: nat): seq<bool>
  {
    bits[Min(8 * j, |bits|)..Min(8 * j + 8, |bits|)]
  }

  /** The buffer `p` after `ibstream::read(p, |bits|)` has consumed `bits`: every byte
      `p[j]` has had its chunk of the bits shifted in. */
  function ReadInto(p: seq<bv8>, bits: seq<bool>): seq<bv8>
    requires |bits| <= 8 * |p|
  {
    seq(|p|, j requires 0 <= j < |p| => ShiftIn(p[j], Chunk(bits, j)))
  }

  /** The sequence of `n` zero bits that pads a partial byte. */
  function Zeros(n: nat): (r: seq<bool>)
    ensures |r| == n && forall i :: 0 <= i < n ==> !r[i]
  {
    seq(n, _ => false)
  }

  // ---------------------------------------------------------------------------
  // Lemmas

  /** Two bytes that agree on all eight bits are equal. */
  lemma BitsDetermineByte(a: bv8, b: bv8)
    requires forall k :: 0 <= k < 8 ==> Bit(a, k) == Bit(b, k)
    ensures a == b
  {
    assert Bit(a, 0) == Bit(b, 0) && Bit(a, 1) == Bit(b, 1);
    assert Bit(a, 2) == Bit(b, 2) && Bit(a, 3) == Bit(b, 3);
    assert Bit(a, 4) == Bit(b, 4) && Bit(a, 5) == Bit(b, 5);
    assert Bit(a, 6) == Bit(b, 6) && Bit(a, 7) == Bit(b, 7);
  }

  /** Shifting a bit into a byte moves every bit up one place and puts the new bit at 0. */
  lemma ShiftOneBit(x: bv8, b: bool, k: nat)
    requires k < 8
    ensures Bit((x << 1) | (if b then 1 else 0), k) == if k == 0 then b else Bit(x, k - 1)
  {
  }

  /** Shifting in one more bit is one more `(x << 1) | bit` step. */
  lemma ShiftInSnoc(x: bv8, bits: seq<bool>, b: bool)
    ensures ShiftIn(x, bits + [b]) == (ShiftIn(x, bits) << 1) | (if b then 1 else 0)
  {
    assert (bits + [b])[..|bits|] == bits;
  }

  /** After shifting in `bits`, the low `|bits|` bits of the byte are `bits` (the last one
      lowest) and the bits above them are the old low bits of `x`. */
  lemma {:induction false} ShiftInBit(x: bv8, bits: seq<bool>, k: nat)
    requires k < 8
    ensures Bit(ShiftIn(x, bits), k) ==
            if k < |bits| then bits[|bits| - 1 - k] else Bit(x, k - |bits|)
  {
    if bits != [] {
      var init, last := bits[..|bits| - 1], bits[|bits| - 1];
      ShiftOneBit(ShiftIn(x, init), last, k);
      if k > 0 {
        ShiftInBit(x, init, k - 1);
      }
    }
  }

  /** Eight shifted-in bits overwrite the byte completely, whatever it held before. */
  lemma ShiftInEight(x: bv8, bits: seq<bool>)
    requires |bits| == 8
    ensures ShiftIn(x, bits) == Pack(bits)
    ensures ByteToBits(Pack(bits)) == bits
  {
    forall k | 0 <= k < 8 ensures Bit(ShiftIn(x, bits), k) == Bit(Pack(bits), k) {
      ShiftInBit(x, bits, k);
      ShiftInBit(0, bits, k);
    }
    BitsDetermineByte(ShiftIn(x, bits), Pack(bits));
    forall j | 0 <= j < 8 ensures ByteToBits(Pack(bits))[j] == bits[j] {
      ShiftInBit(0, bits, 7 - j);
    }
  }

  /** Shifting a byte's own bits, most significant first, into any byte yields that byte. */
  lemma ShiftInByte(x: bv8, b: bv8)
    ensures ShiftIn(x, ByteToBits(b)) == b
  {
    var bits := ByteToBits(b);
    forall k | 0 <= k < 8 ensures Bit(ShiftIn(x, bits), k) == Bit(b, k) {
      ShiftInBit(x, bits, k);
    }
    BitsDetermineByte(ShiftIn(x, bits), b);
  }

  lemma {:induction false} BytesToBitsAppend(a: seq<bv8>, b: seq<bv8>)
    ensures BytesToBits(a + b) == BytesToBits(a) + BytesToBits(b)
  {
    if a != [] {
      assert (a + b)[1..] == a[1..] + b;
      BytesToBitsAppend(a[1..], b);
    } else {
      assert a + b == b;
    }
  }

  /** Bit `i` of a byte stream is bit `7 - i % 8` of byte `i / 8`. */
  lemma {:induction false} BytesToBitsAt(bs: seq<bv8>, i: nat)
    requires i < 8 * |bs|
    ensures BytesToBits(bs)[i] == Bit(bs[i / 8], 7 - i % 8)
  {
    if i >= 8 {
      BytesToBitsAt(bs[1..], i - 8);
    }
  }

  /** The eight bits at positions `8j .. 8j+8` of a byte stream are byte `j`. */
  lemma {:induction false} BytesToBitsSlice(bs: seq<bv8>, j: nat)
    requires j < |bs|
    ensures BytesToBits(bs)[8 * j..8 * j + 8] == ByteToBits(bs[j])
  {
    var rest := BytesToBits(bs[1..]);
    assert BytesToBits(bs) == ByteToBits(bs[0]) + rest;
    if j > 0 {
      BytesToBitsSlice(bs[1..], j - 1);
      assert BytesToBits(bs)[8 * j..8 * j + 8] == rest[8 * (j - 1)..8 * (j - 1) + 8];
    }
  }

  /** Grouping a bit stream into bytes and reading the bytes back gives the same bits. */
  lemma {:induction false} BitsToBytesToBits(bits: seq<bool>)
    requires |bits| % 8 == 0
    ensures BytesToBits(BitsToBytes(bits)) == bits
  {
    if bits != [] {
      ShiftInEight(0, bits[..8]);
      BitsToBytesToBits(bits[8..]);
      assert bits == bits[..8] + bits[8..];
    }
  }

  /** Reading the bits of a byte stream back eight at a time gives the bytes. */
  lemma {:induction false} BytesToBitsToBytes(q: seq<bv8>)
    ensures BitsToBytes(BytesToBits(q)) == q
  {
    if q != [] {
      var bits := BytesToBits(q);
      assert bits[..8] == ByteToBits(q[0]);
      assert bits[8..] == BytesToBits(q[1..]);
      ShiftInByte(0, q[0]);
      BytesToBitsToBytes(q[1..]);
    }
  }

  /** Counting down from `8k - 1`, bit position `i` is at offset `7 - i % 8` in its byte. */
  lemma CountdownOffset(k: nat, i: nat)
    requires i < 8 * k
    ensures (8 * k - 1 - i) % 8 == 7 - i % 8
  {
    var q, r := i / 8, i % 8;
    assert 8 * k - 1 - i == 8 * (k - q - 1) + (7 - r);
  }

  /** Writing `8k` bits with highest index `8k - 1` emits the first `k` bytes in memory order,
      each most significant bit first. */
  lemma WriteBitsWhole(p: seq<bv8>, k: nat)
    requires k <= |p|
    ensures WriteBits(p, 8 * k - 1) == BytesToBits(p[..k])
  {
    var w, b := WriteBits(p, 8 * k - 1), BytesToBits(p[..k]);
    forall i | 0 <= i < 8 * k ensures w[i] == b[i] {
      BytesToBitsAt(p[..k], i);
      CountdownOffset(k, i);
    }
  }

  /** The bits `write` has emitted after `i + 1` steps extend those after `i` steps by bit
      `(s - i) & 7` of byte `i >> 3`, whatever was written before. */
  lemma WriteBitsStep(before: seq<bool>, p: seq<bv8>, s: int, i: nat)
    requires i <= s < 8 * |p|
    ensures before + WriteBits(p, s)[..i + 1] == before + WriteBits(p, s)[..i] + [Bit(p[i / 8], (s - i) % 8)]
  {
    var w := WriteBits(p, s);
    assert w[i] == Bit(p[i / 8], (s - i) % 8);
    assert w[..i + 1] == w[..i] + [w[i]];
  }

  /** Which chunk one more read bit goes to, and that no other chunk changes. */
  lemma ChunkAppend(bits: seq<bool>, b: bool, j: nat)
    ensures Chunk(bits + [b], j) ==
            if j == |bits| / 8 then Chunk(bits, j) + [b] else Chunk(bits, j)
  {
  }

  /** One more bit read goes into byte `|bits| >> 3` as `(x << 1) | bit`. */
  lemma ReadIntoSnoc(p: seq<bv8>, bits: seq<bool>, b: bool)
    requires |bits| < 8 * |p|
    ensures var r, j := ReadInto(p, bits), |bits| / 8;
            ReadInto(p, bits + [b]) == r[j := (r[j] << 1) | (if b then 1 else 0)]
  {
    var r, j := ReadInto(p, bits), |bits| / 8;
    forall i | 0 <= i < |p|
      ensures ReadInto(p, bits + [b])[i] == r[j := (r[j] << 1) | (if b then 1 else 0)][i]
    {
      ChunkAppend(bits, b, i);
      if i == j {
        ShiftInSnoc(p[i], Chunk(bits, i), b);
      }
    }
  }

  /** Reading `8|q|` bits that are the bytes `q` overwrites the first `|q|` bytes of the
      buffer with `q`, whatever the buffer held, and leaves the rest alone. */
  lemma ReadIntoBytes(p: seq<bv8>, q: seq<bv8>)
    requires |q| <= |p|
    ensures ReadInto(p, BytesToBits(q)) == q + p[|q|..]
  {
    forall j | 0 <= j < |p| ensures ReadInto(p, BytesToBits(q))[j] == (q + p[|q|..])[j] {
      ReadIntoByte(p, q, j);
    }
  }

  /** Byte `j` of the buffer after reading the bytes `q`. */
  lemma ReadIntoByte(p: seq<bv8>, q: seq<bv8>, j: nat)
    requires |q| <= |p| && j < |p|
    ensures ReadInto(p, BytesToBits(q))[j] == if j < |q| then q[j] else p[j]
  {
    var bits := BytesToBits(q);
    if j < |q| {
      BytesToBitsSlice(q, j);
      assert Chunk(bits, j) == ByteToBits(q[j]);
      ShiftInByte(p[j], q[j]);
    } else {
      assert Chunk(bits, j) == [];
    }
  }

  /** `read(p, 8k)` undoes `write(q, 8k - 1)`: the first `k` bytes of the buffer become
      the first `k` bytes of `q`, whatever the buffer held. */
  lemma ReadInvertsWrite(q: seq<bv8>, k: nat, p: seq<bv8>)
    requires k <= |q| && k <= |p|
    ensures ReadInto(p, WriteBits(q, 8 * k - 1)) == q[..k] + p[k..]
  {
    WriteBitsWhole(q, k);
    ReadIntoBytes(p, q[..k]);
  }
}
