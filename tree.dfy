/** The Huffman tree `huffman::Node` and its serialised form: an internal node is a 1 bit
    followed by its left and right subtrees, a leaf is a 0 bit followed by its byte, most
    significant bit first. */
module HuffmanTree {
  import opened Bits
  import opened BitStreams

  /** A `char` as a symbol of the input: its bit pattern read as an unsigned value. */
  newtype byte = x: int | 0 <= x < 256

  /** A node is a leaf carrying a byte, or an internal node with both children: the
      full-tree shape `~Node` relies on when it deletes both children exactly when `left`
      is set. Internal nodes carry no code (the source leaves it 0 and never reads it). */
  datatype Node =
    | Leaf(score: int, code: byte)
    | Internal(score: int, left: Node, right: Node)

  /** The number of leaves: at least one, and exactly one only for a bare leaf. */
  function LeafCount(n: Node): (r: nat)
    ensures r >= 1
    ensures r == 1 <==> n.Leaf?
  {
    match n
    case Leaf(_, _) => 1
    case Internal(_, l, r) => LeafCount(l) + LeafCount(r)
  }

  /** The leaves of a tree as (byte, score) pairs. */
  function Leaves(n: Node): multiset<(byte, int)>
  {
    match n
    case Leaf(s, c) => multiset{(c, s)}
    case Internal(_, l, r) => Leaves(l) + Leaves(r)
  }

  /** The same tree with every score 0: what survives serialisation, since the decoder
      builds every node as `Node(0, 0, 0, 0)`. */
  function Shape(n: Node): Node
  {
    match n
    case Leaf(_, c) => Leaf(0, c)
    case Internal(_, l, r) => Internal(0, Shape(l), Shape(r))
  }

  /** `Node::length`: one bit per node plus eight per leaf byte, so 10 bits per leaf
      less one (a full tree with `k` leaves has `k - 1` internal nodes). */
  function Length(n: Node): (r: int)
    ensures r == 10 * LeafCount(n) - 1
  {
    1 + match n
        case Leaf(_, _) => 8
        case Internal(_, l, r) => Length(l) + Length(r)
  }

  /** The bits `Node::encode` writes: the `left` pointer as a bit, then either both
      subtrees or `write(&code, 7)`, the eight bits of the byte. */
  function EncodeBits(n: Node): seq<bool>
  {
    match n
    case Leaf(_, c) => [false] + WriteBits([c as bv8], 7)
    case Internal(_, l, r) => [true] + EncodeBits(l) + EncodeBits(r)
  }

  /** What `Node::decode` makes of a bit stream: the tree it builds and the bits after it,
      or `None` when the stream ends first. A leaf's byte is the next eight bits shifted
      into the code, which starts out 0. */
  function DecodeBits(bits: seq<bool>): (r: Option<(Node, seq<bool>)>)
    ensures r.Some? ==> IsTail(r.value.1, bits)
    decreases |bits|
  {
    if bits == [] then None
    else if bits[0] then
      match DecodeBits(bits[1..])
      case None => None
      case Some((left, mid)) =>
        match DecodeBits(mid)
        case None => None
        case Some((right, rest)) =>
          SuffixOfSuffix(bits, mid, rest);
          Some((Internal(0, left, right), rest))
    else if |bits| < 9 then None
    else Some((Leaf(0, Pack(bits[1..9]) as byte), bits[9..]))
  }

  /** `rest` is what is left of `bits` after at least one bit. */
  predicate IsTail(rest: seq<bool>, bits: seq<bool>)
  {
    |rest| < |bits| && rest == bits[|bits| - |rest|..]
  }

  /** A tail of a tail of `bits[1..]` is a tail of `bits`. */
  lemma SuffixOfSuffix(bits: seq<bool>, mid: seq<bool>, rest: seq<bool>)
    requires |bits| > 0 && IsTail(mid, bits[1..]) && IsTail(rest, mid)
    ensures IsTail(rest, bits)
  {
  }

  // ---------------------------------------------------------------------------
  // Lemmas

  /** Converting a symbol to a bit-vector byte and back gives the symbol (proved range by
      range, which keeps the solver's integer/bit-vector conversion cheap). */
  lemma ByteRoundTrip(c: byte)
    ensures (c as bv8) as byte == c
  {
    if c < 128 {
      if c < 64 {
        if c < 32 { } else { }
      } else {
        if c < 96 { } else { }
      }
    } else {
      if c < 192 {
        if c < 160 { } else { }
      } else {
        if c < 224 { } else { }
      }
    }
  }

  /** A leaf's eight code bits carry its byte, whatever the byte. */
  lemma CodeBits(c: byte)
    ensures WriteBits([c as bv8], 7) == ByteToBits(c as bv8)
    ensures Pack(WriteBits([c as bv8], 7)) as byte == c
  {
    var b := c as bv8;
    WriteBitsWhole([b], 1);
    assert [b][..1] == [b];
    assert BytesToBits([b]) == ByteToBits(b);
    ShiftInByte(0, b);
    ByteRoundTrip(c);
  }

  /** Zeroing the scores keeps the leaves' bytes, and so the leaf count. */
  lemma {:induction false} ShapeLeafCount(n: Node)
    ensures LeafCount(Shape(n)) == LeafCount(n)
  {
    match n
    case Leaf(_, _) =>
    case Internal(_, l, r) =>
      ShapeLeafCount(l);
      ShapeLeafCount(r);
  }

  /** `length()` is the number of bits `encode` writes. */
  lemma {:induction false} EncodedLength(n: Node)
    ensures |EncodeBits(n)| == Length(n)
  {
    match n
    case Leaf(_, c) =>
    case Internal(_, l, r) =>
      EncodedLength(l);
      EncodedLength(r);
  }

  /** Decoding what `encode` wrote gives back the tree, with its scores zeroed, and
      consumes exactly `Length(n)` bits, whatever follows. */
  lemma {:induction false} DecodeEncode(n: Node, rest: seq<bool>)
    ensures DecodeBits(EncodeBits(n) + rest) == Some((Shape(n), rest))
  {
    match n
    case Leaf(_, c) =>
      DecodeEncodedLeaf(n, rest);
    case Internal(_, l, r) =>
      var bits := EncodeBits(n) + rest;
      var er := EncodeBits(r) + rest;
      assert bits[1..] == EncodeBits(l) + er;
      DecodeEncode(l, er);
      DecodeEncode(r, rest);
      DecodeJoin(bits, Shape(l), er, Shape(r), rest);
  }

  /** An encoded leaf decodes to the leaf with score 0. */
  lemma DecodeEncodedLeaf(n: Node, rest: seq<bool>)
    requires n.Leaf?
    ensures DecodeBits(EncodeBits(n) + rest) == Some((Shape(n), rest))
  {
    var bits := EncodeBits(n) + rest;
    CodeBits(n.code);
    assert bits[1..9] == WriteBits([n.code as bv8], 7);
    assert bits[9..] == rest;
  }

  /** A 1 bit followed by two decodable trees decodes to the internal node over them. */
  lemma DecodeJoin(bits: seq<bool>, l: Node, mid: seq<bool>, r: Node, rest: seq<bool>)
    requires bits != [] && bits[0]
    requires DecodeBits(bits[1..]) == Some((l, mid)) && DecodeBits(mid) == Some((r, rest))
    ensures DecodeBits(bits) == Some((Internal(0, l, r), rest))
  {
  }

  /** Conversely, whatever `decode` accepts is exactly an encoded tree followed by the
      bits after it, and the tree has zero scores. */
  lemma {:induction false} EncodeDecode(bits: seq<bool>, t: Node, rest: seq<bool>)
    requires DecodeBits(bits) == Some((t, rest))
    ensures bits == EncodeBits(t) + rest
    ensures Shape(t) == t
    decreases |bits|
  {
    if bits[0] {
      var mid := DecodeInternal(bits, t, rest);
      EncodeDecode(bits[1..], t.left, mid);
      EncodeDecode(mid, t.right, rest);
      EncodeInternal(bits, t.left, mid, t.right, rest);
    } else {
      DecodeLeaf(bits, t, rest);
    }
  }

  /** A decoded internal node is a 1 bit, its left subtree, then its right subtree. */
  lemma DecodeInternal(bits: seq<bool>, t: Node, rest: seq<bool>) returns (mid: seq<bool>)
    requires bits != [] && bits[0] && DecodeBits(bits) == Some((t, rest))
    ensures t.Internal? && t.score == 0
    ensures DecodeBits(bits[1..]) == Some((t.left, mid))
    ensures DecodeBits(mid) == Some((t.right, rest))
  {
    mid := DecodeBits(bits[1..]).value.1;
  }

  /** A 1 bit, an encoded left subtree and an encoded right subtree encode the internal node. */
  lemma EncodeInternal(bits: seq<bool>, l: Node, mid: seq<bool>, r: Node, rest: seq<bool>)
    requires bits != [] && bits[0]
    requires bits[1..] == EncodeBits(l) + mid && mid == EncodeBits(r) + rest
    ensures bits == EncodeBits(Internal(0, l, r)) + rest
  {
    assert bits == [true] + bits[1..];
    AppendAssoc([true], EncodeBits(l), EncodeBits(r), rest);
  }

  /** A decoded leaf is a 0 bit and the eight bits of its byte. */
  lemma DecodeLeaf(bits: seq<bool>, t: Node, rest: seq<bool>)
    requires bits != [] && !bits[0] && DecodeBits(bits) == Some((t, rest))
    ensures bits == EncodeBits(t) + rest
    ensures Shape(t) == t
  {
    var b8 := bits[1..9];
    ShiftInEight(0, b8);
    WriteBitsWhole([Pack(b8)], 1);
    assert [Pack(b8)][..1] == [Pack(b8)];
    assert BytesToBits([Pack(b8)]) == ByteToBits(Pack(b8));
    assert (t.code as bv8) == Pack(b8);
    assert bits == [false] + b8 + rest;
  }

  lemma AppendAssoc(a: seq<bool>, b: seq<bool>, c: seq<bool>, d: seq<bool>)
    ensures a + (b + (c + d)) == a + b + c + d
    ensures a + (b + c + d) == a + b + c + d
  {
  }

  /** No encoded tree is a proper prefix of another: a stream cut short anywhere inside
      an encoded tree does not decode. */
  lemma EncodingPrefixFree(n: Node, cut: nat)
    requires cut < |EncodeBits(n)|
    ensures DecodeBits(EncodeBits(n)[..cut]) == None
  {
    var bits := EncodeBits(n);
    var r := DecodeBits(bits[..cut]);
    if r.Some? {
      var t, rest := r.value.0, r.value.1;
      EncodeDecode(bits[..cut], t, rest);
      var more := bits[cut..];
      Resplit(bits, cut, EncodeBits(t), rest);
      EncodingDelimits(t, rest + more, n);
      assert false;
    }
  }

  /** A stream whose first `cut` bits are `a + b` is `a` followed by `b` and the rest. */
  lemma Resplit(bits: seq<bool>, cut: nat, a: seq<bool>, b: seq<bool>)
    requires cut <= |bits| && bits[..cut] == a + b
    ensures a + (b + bits[cut..]) == bits
  {
    assert bits == bits[..cut] + bits[cut..];
  }

  /** An encoded tree followed by more bits is never itself an encoded tree. */
  lemma EncodingDelimits(t: Node, x: seq<bool>, n: Node)
    requires EncodeBits(t) + x == EncodeBits(n)
    ensures x == []
  {
    DecodeEncode(t, x);
    DecodeEncode(n, []);
    assert EncodeBits(n) + [] == EncodeBits(n);
  }

  // ---------------------------------------------------------------------------
  // The recursive methods on the bit streams

  /** `Node::encode`: writes the node's serialised form to the bit writer. */
  method EncodeNode(n: Node, out: BitWriter)
    requires out.Valid()
    modifies out
    ensures out.Valid()
    ensures out.Written == old(out.Written) + EncodeBits(n)
  {
    ghost var w := out.Written;
    out.PutBit(n.Internal?);
    if n.Internal? {
      EncodeNode(n.left, out);
      EncodeNode(n.right, out);
      AppendAssoc(w, [true], EncodeBits(n.left), EncodeBits(n.right));
    } else {
      out.Write([n.code as bv8], 7);
      assert EncodeBits(n) == [false] + WriteBits([n.code as bv8], 7);
    }
  }

  /** `Node::decode`: reads one serialised node from the bit reader. Running out of bits
      is excluded by the precondition. */
  method DecodeNode(inp: BitReader) returns (n: Node)
    requires inp.Valid() && DecodeBits(inp.Rest()).Some?
    modifies inp
    ensures inp.Valid()
    ensures DecodeBits(old(inp.Rest())) == Some((n, inp.Rest()))
    decreases |inp.Rest()|
  {
    ghost var bits := inp.Rest();
    var internal := inp.GetBit();
    assert bits[1..] == inp.Rest();
    if internal {
      var l := DecodeNode(inp);
      var r := DecodeNode(inp);
      n := Internal(0, l, r);
    } else {
      var code := new bv8[1];
      code[0] := 0;
      inp.Read(code, 8);
      assert bits[1..][..8] == bits[1..9];
      assert Chunk(bits[1..9], 0) == bits[1..9];
      assert code[0] == Pack(bits[1..9]);
      n := Leaf(0, code[0] as byte);
    }
  }
}
