/** `huffman::encode` and `huffman::decode`: the frequency table, the tree built from it by
    repeatedly merging the two lowest-scored nodes, and the container written to the bit
    stream (the tree's length in bits as a 32-bit header, then the serialised tree). */
module Huffman {
  import opened Bits
  import opened BitStreams
  import opened HuffmanTree

  // ---------------------------------------------------------------------------
  // The frequency table

  /** `frequences[c]` read through `operator[]`: a byte not yet in the table counts 0. */
  function Get(m: map<byte, int>, c: byte): int
  {
    if c in m then m[c] else 0
  }

  /** How many times `c` occurs in `s`. */
  function Count(s: seq<byte>, c: byte): nat
  {
    if s == [] then 0 else (if s[0] == c then 1 else 0) + Count(s[1..], c)
  }

  /** The frequency table after counting the bytes of `s` in order, `++frequences[c]` for
      each: what the counting loop of `huffman::encode` builds. */
  function Frequencies(s: seq<byte>): map<byte, int>
  {
    if s == [] then map[]
    else
      var m, c := Frequencies(s[..|s| - 1]), s[|s| - 1];
      m[c := Get(m, c) + 1]
  }

  /** The sum of the counts in a table. */
  ghost function Total(m: map<byte, int>): int
    decreases |m|
  {
    if m == map[] then 0
    else
      NonEmpty(m);
      var c :| c in m;
      m[c] + Total(m - {c})
  }

  /** The entries of a table as (byte, count) pairs. */
  ghost function Entries(m: map<byte, int>): multiset<(byte, int)>
    decreases |m|
  {
    if m == map[] then multiset{}
    else
      NonEmpty(m);
      var c :| c in m;
      multiset{(c, m[c])} + Entries(m - {c})
  }

  lemma NonEmpty(m: map<byte, int>)
    requires m != map[]
    ensures exists c :: c in m
  {
    if forall c :: c !in m {
      assert false;
    }
  }

  /** The frequency-counting loop of `huffman::encode`: `++frequences[c]` for each byte. */
  method CountFrequencies(input: seq<byte>) returns (freq: map<byte, int>)
    ensures freq == Frequencies(input)
  {
    freq := map[];
    var i := 0;
    while i < |input|
      invariant 0 <= i <= |input|
      invariant freq == Frequencies(input[..i])
    {
      var c := input[i];
      assert input[..i + 1][..i] == input[..i];
      freq := freq[c := Get(freq, c) + 1];
      i := i + 1;
    }
    assert input[..i] == input;
  }

  /** Counting one more byte adds one to its occurrences. */
  lemma {:induction false} CountSnoc(s: seq<byte>, x: byte, c: byte)
    ensures Count(s + [x], c) == Count(s, c) + if x == c then 1 else 0
  {
    if s != [] {
      assert (s + [x])[1..] == s[1..] + [x];
      CountSnoc(s[1..], x, c);
    }
  }

  /** The table holds exactly the bytes of the input, each with its number of occurrences. */
  lemma {:induction false} FrequenciesCount(s: seq<byte>, c: byte)
    ensures c in Frequencies(s) <==> c in s
    ensures Get(Frequencies(s), c) == Count(s, c)
  {
    if s != [] {
      var init, x := s[..|s| - 1], s[|s| - 1];
      FrequenciesCount(init, c);
      assert s == init + [x];
      CountSnoc(init, x, c);
    }
  }

  /** A byte has a positive count exactly when it occurs in the input. */
  lemma {:induction false} CountPositive(s: seq<byte>, c: byte)
    ensures Count(s, c) > 0 <==> c in s
  {
    if s != [] {
      CountPositive(s[1..], c);
      assert c in s <==> s[0] == c || c in s[1..];
    }
  }

  /** Removing one entry takes its count out of the total, whichever entry it is. */
  lemma {:induction false} TotalRemove(m: map<byte, int>, c: byte)
    requires c in m
    ensures Total(m) == m[c] + Total(m - {c})
    decreases |m|
  {
    var d :| d in m.Keys && Total(m) == m[d] + Total(m - {d});
    if d != c {
      TotalRemove(m - {d}, c);
      TotalRemove(m - {c}, d);
      assert m - {d} - {c} == m - {c} - {d};
    }
  }

  /** Removing one entry takes its pair out of the entries, whichever entry it is. */
  lemma {:induction false} EntriesRemove(m: map<byte, int>, c: byte)
    requires c in m
    ensures Entries(m) == multiset{(c, m[c])} + Entries(m - {c})
    decreases |m|
  {
    var d :| d in m && Entries(m) == multiset{(d, m[d])} + Entries(m - {d});
    if d != c {
      EntriesRemove(m - {d}, c);
      EntriesRemove(m - {c}, d);
      RemoveBoth(m, c, d);
      var rest := Entries(m - {c} - {d});
      assert Entries(m) == multiset{(d, m[d])} + (multiset{(c, m[c])} + rest);
      assert Entries(m - {c}) == multiset{(d, m[d])} + rest;
    }
  }

  /** The entries are exactly the table's (key, value) pairs, each once. */
  lemma {:induction false} EntriesMember(m: map<byte, int>, c: byte, v: int)
    ensures Entries(m)[(c, v)] == if c in m && m[c] == v then 1 else 0
    decreases |m|
  {
    if m != map[] {
      NonEmpty(m);
      var d :| d in m;
      EntriesRemove(m, d);
      EntriesMember(m - {d}, c, v);
    }
  }

  /** A table has as many entries as keys. */
  lemma {:induction false} EntriesSize(m: map<byte, int>)
    ensures |Entries(m)| == |m|
    decreases |m|
  {
    if m != map[] {
      NonEmpty(m);
      var d :| d in m;
      EntriesRemove(m, d);
      EntriesSize(m - {d});
    }
  }

  /** Removing two keys in either order leaves the same table and the same values. */
  lemma RemoveBoth(m: map<byte, int>, c: byte, d: byte)
    requires c in m && d in m && c != d
    ensures m - {d} - {c} == m - {c} - {d}
    ensures (m - {d})[c] == m[c] && (m - {c})[d] == m[d]
  {
  }

  /** Adding a new key and removing it again gives the table back. */
  lemma InsertRemove(m: map<byte, int>, c: byte, v: int)
    requires c !in m
    ensures m[c := v] - {c} == m
  {
  }

  /** Setting one entry changes the total by the difference. */
  lemma TotalUpdate(m: map<byte, int>, c: byte, v: int)
    ensures Total(m[c := v]) == Total(m) - Get(m, c) + v
  {
    TotalRemove(m[c := v], c);
    if c in m {
      TotalRemove(m, c);
      assert m[c := v] - {c} == m - {c};
    } else {
      assert m[c := v] - {c} == m;
    }
  }

  /** The counts of the frequency table add up to the input length. */
  lemma {:induction false} TotalFrequencies(s: seq<byte>)
    ensures Total(Frequencies(s)) == |s|
  {
    if s != [] {
      var init, c := s[..|s| - 1], s[|s| - 1];
      TotalFrequencies(init);
      TotalUpdate(Frequencies(init), c, Get(Frequencies(init), c) + 1);
    }
  }

  // ---------------------------------------------------------------------------
  // Building the tree

  /** The leaves of all the trees in a forest. */
  function ForestLeaves(q: seq<Node>): multiset<(byte, int)>
  {
    if q == [] then multiset{} else Leaves(q[0]) + ForestLeaves(q[1..])
  }

  /** The sum of the root scores of a forest. */
  function ForestScore(q: seq<Node>): int
  {
    if q == [] then 0 else q[0].score + ForestScore(q[1..])
  }

  /** Every internal node scores the sum of its children's scores, as the merge step sets it. */
  predicate WellScored(n: Node)
  {
    match n
    case Leaf(_, _) => true
    case Internal(s, l, r) => s == l.score + r.score && WellScored(l) && WellScored(r)
  }

  /** The queue without its element at `i`: what `pop` leaves after `top` returned it. */
  function Remove(q: seq<Node>, i: nat): seq<Node>
    requires i < |q|
  {
    q[..i] + q[i + 1..]
  }

  lemma {:induction false} ForestAppend(a: seq<Node>, b: seq<Node>)
    ensures ForestLeaves(a + b) == ForestLeaves(a) + ForestLeaves(b)
    ensures ForestScore(a + b) == ForestScore(a) + ForestScore(b)
  {
    if a != [] {
      assert (a + b)[1..] == a[1..] + b;
      ForestAppend(a[1..], b);
    } else {
      assert a + b == b;
    }
  }

  /** Taking one tree out of the forest takes its leaves and its score out. */
  lemma {:induction false} ForestRemove(q: seq<Node>, i: nat)
    requires i < |q|
    ensures ForestLeaves(q) == Leaves(q[i]) + ForestLeaves(Remove(q, i))
    ensures ForestScore(q) == q[i].score + ForestScore(Remove(q, i))
  {
    var r := Remove(q, i);
    if i == 0 {
      assert r == q[1..];
    } else {
      assert r[0] == q[0];
      assert r[1..] == Remove(q[1..], i - 1);
      ForestRemove(q[1..], i - 1);
    }
  }

  /** `queue.top()`: the position of a lowest-scored node. The order among equal scores
      is the heap's and is not modelled; any lowest-scored node may be chosen. */
  method MinIndex(q: seq<Node>) returns (i: nat)
    requires |q| > 0
    ensures i < |q|
    ensures forall k :: 0 <= k < |q| ==> q[i].score <= q[k].score
  {
    i := 0;
    for k := 1 to |q|
      invariant i < k
      invariant forall j :: 0 <= j < k ==> q[i].score <= q[j].score
    {
      if q[k].score < q[i].score {
        i := k;
      }
    }
  }

  /** Pushing the leaf of a new entry adds its pair to the leaves of the queue. */
  lemma LoadLeavesStep(queue: seq<Node>, loaded: map<byte, int>, c: byte, v: int)
    requires ForestLeaves(queue) == Entries(loaded) && c !in loaded
    ensures ForestLeaves(queue + [Leaf(v, c)]) == Entries(loaded[c := v])
  {
    ForestAppend(queue, [Leaf(v, c)]);
    assert ForestLeaves([Leaf(v, c)]) == multiset{(c, v)} + ForestLeaves([]);
    EntriesRemove(loaded[c := v], c);
    InsertRemove(loaded, c, v);
  }

  /** Pushing the leaf of a new entry adds its count to the score of the queue. */
  lemma LoadScoreStep(queue: seq<Node>, loaded: map<byte, int>, c: byte, v: int)
    requires ForestScore(queue) == Total(loaded) && c !in loaded
    ensures ForestScore(queue + [Leaf(v, c)]) == Total(loaded[c := v])
  {
    ForestAppend(queue, [Leaf(v, c)]);
    assert ForestScore([Leaf(v, c)]) == v + ForestScore([]);
    TotalRemove(loaded[c := v], c);
    InsertRemove(loaded, c, v);
  }

  /** What the queue holds after the table entries in `loaded` have been pushed: one leaf
      per entry, the scores summing to the entries' total. */
  ghost predicate Loaded(queue: seq<Node>, loaded: map<byte, int>)
  {
    && ForestLeaves(queue) == Entries(loaded)
    && ForestScore(queue) == Total(loaded)
    && |queue| == |loaded|
    && forall k :: 0 <= k < |queue| ==> queue[k].Leaf?
  }

  /** Pushing the leaf of a new entry keeps the queue in step with the loaded entries. */
  lemma LoadStep(queue: seq<Node>, loaded: map<byte, int>, c: byte, v: int)
    requires Loaded(queue, loaded) && c !in loaded
    ensures Loaded(queue + [Leaf(v, c)], loaded[c := v])
  {
    LoadLeavesStep(queue, loaded, c, v);
    LoadScoreStep(queue, loaded, c, v);
  }

  /** The state of the loading loop: the entries of `freq` outside `pending` are loaded. */
  ghost predicate LoadingState(freq: map<byte, int>, pending: set<byte>, queue: seq<Node>, loaded: map<byte, int>)
  {
    && pending <= freq.Keys
    && loaded.Keys == freq.Keys - pending
    && (forall c :: c in loaded ==> loaded[c] == freq[c])
    && Loaded(queue, loaded)
  }

  /** Loading one pending entry keeps the loop's state. */
  lemma LoadingStep(freq: map<byte, int>, pending: set<byte>, queue: seq<Node>, loaded: map<byte, int>, c: byte)
    requires LoadingState(freq, pending, queue, loaded) && c in pending
    ensures LoadingState(freq, pending - {c}, queue + [Leaf(freq[c], c)], loaded[c := freq[c]])
  {
    LoadStep(queue, loaded, c, freq[c]);
  }

  /** Once nothing is pending, every entry is loaded. */
  lemma LoadingDone(freq: map<byte, int>, queue: seq<Node>, loaded: map<byte, int>)
    requires LoadingState(freq, {}, queue, loaded)
    ensures Loaded(queue, freq)
  {
    assert loaded == freq;
  }

  /** The loop of `huffman::encode` that pushes one leaf per table entry onto the queue,
      in the table's (unspecified) iteration order. */
  method LoadLeaves(freq: map<byte, int>) returns (queue: seq<Node>)
    ensures Loaded(queue, freq)
  {
    queue := [];
    var pending := freq.Keys;
    ghost var loaded: map<byte, int> := map[];
    while pending != {}
      invariant LoadingState(freq, pending, queue, loaded)
      decreases |pending|
    {
      var c :| c in pending;
      LoadingStep(freq, pending, queue, loaded, c);
      queue := queue + [Leaf(freq[c], c)];
      loaded := loaded[c := freq[c]];
      pending := pending - {c};
    }
    LoadingDone(freq, queue, loaded);
  }

  /** Every tree of the forest is well scored. */
  ghost predicate AllWellScored(q: seq<Node>)
  {
    forall k :: 0 <= k < |q| ==> WellScored(q[k])
  }

  /** The queue after the tree at `i` and then, among the `rest`, the tree at `j` are
      popped, and `node`, their merge, is pushed. */
  ghost predicate MergeOf(queue: seq<Node>, i: nat, rest: seq<Node>, j: nat, others: seq<Node>, node: Node)
  {
    && i < |queue| && rest == Remove(queue, i)
    && j < |rest| && others == Remove(rest, j)
    && node.Internal? && node.left == queue[i] && node.right == rest[j]
  }

  /** Popping two trees and pushing their merge keeps the leaves of the forest. */
  lemma MergeKeepsLeaves(queue: seq<Node>, i: nat, rest: seq<Node>, j: nat, others: seq<Node>, node: Node)
    requires MergeOf(queue, i, rest, j, others, node)
    ensures ForestLeaves(others + [node]) == ForestLeaves(queue)
  {
    ForestRemove(queue, i);
    ForestRemove(rest, j);
    PushLeaves(others, node);
    Regroup(ForestLeaves(queue), ForestLeaves(rest), ForestLeaves(others),
            Leaves(queue[i]), Leaves(rest[j]), ForestLeaves(others + [node]));
  }

  /** Pushing an internal node adds its children's leaves to the forest's. */
  lemma PushLeaves(q: seq<Node>, node: Node)
    requires node.Internal?
    ensures ForestLeaves(q + [node]) == ForestLeaves(q) + (Leaves(node.left) + Leaves(node.right))
  {
    ForestAppend(q, [node]);
    ForestSingle(node);
  }

  /** The multiset sums behind `MergeKeepsLeaves`. */
  lemma Regroup(all: multiset<(byte, int)>, rest: multiset<(byte, int)>, others: multiset<(byte, int)>,
                l: multiset<(byte, int)>, r: multiset<(byte, int)>, merged: multiset<(byte, int)>)
    requires all == l + rest && rest == r + others && merged == others + (l + r)
    ensures merged == all
  {
  }

  /** A forest of one tree has that tree's leaves and score. */
  lemma ForestSingle(n: Node)
    ensures ForestLeaves([n]) == Leaves(n) && ForestScore([n]) == n.score
  {
    assert [n][1..] == [];
  }

  /** Popping two trees and pushing their merge, which scores the sum of their scores,
      keeps the total score of the forest. */
  lemma MergeKeepsScore(queue: seq<Node>, i: nat, rest: seq<Node>, j: nat, others: seq<Node>, node: Node)
    requires MergeOf(queue, i, rest, j, others, node)
    requires node.score == queue[i].score + rest[j].score
    ensures ForestScore(others + [node]) == ForestScore(queue)
  {
    ForestRemove(queue, i);
    ForestRemove(rest, j);
    ForestAppend(others, [node]);
    ForestSingle(node);
  }

  /** The merge of two well-scored trees, scoring the sum of their scores, is well scored,
      and so are the trees left. */
  lemma MergeKeepsWellScored(queue: seq<Node>, i: nat, rest: seq<Node>, j: nat, others: seq<Node>, node: Node)
    requires MergeOf(queue, i, rest, j, others, node)
    requires node.score == queue[i].score + rest[j].score
    requires AllWellScored(queue)
    ensures AllWellScored(others + [node])
  {
    var next := others + [node];
    forall k | 0 <= k < |next| ensures WellScored(next[k]) {
      if k < |next| - 1 {
        var k' := if k < j then k else k + 1;
        assert next[k] == rest[k'];
        assert rest[k'] == queue[if k' < i then k' else k' + 1];
      } else {
        assert rest[j] == queue[if j < i then j else j + 1];
      }
    }
  }

  /** One iteration of the merge loop of `huffman::encode`: `top` and `pop` twice, then
      `push` of the new node. The two trees merged score no more than any tree left, and the
      first no more than the second. */
  method MergeLowest(queue: seq<Node>) returns (next: seq<Node>, i: nat, j: nat)
    requires |queue| > 1
    ensures |next| == |queue| - 1 && i < |queue| && j < |queue| - 1
    ensures MergeOf(queue, i, Remove(queue, i), j, next[..|next| - 1], next[|next| - 1])
    ensures forall k :: 0 <= k < |queue| ==> queue[i].score <= queue[k].score
    ensures forall k :: 0 <= k < |queue| - 1 ==> Remove(queue, i)[j].score <= Remove(queue, i)[k].score
    ensures ForestLeaves(next) == ForestLeaves(queue)
    ensures ForestScore(next) == ForestScore(queue)
    ensures AllWellScored(queue) ==> AllWellScored(next)
    ensures var node := next[|next| - 1];
            && node.Internal?
            && node.score == node.left.score + node.right.score
            && node.left.score <= node.right.score
            && forall k :: 0 <= k < |next| - 1 ==> node.right.score <= next[k].score
  {
    i := MinIndex(queue);
    var left := queue[i];
    var rest := Remove(queue, i);
    j := MinIndex(rest);
    var right := rest[j];
    var node := Internal(left.score + right.score, left, right);
    next := Remove(rest, j) + [node];
    assert next[..|next| - 1] == Remove(rest, j);
    MergeKeepsLeaves(queue, i, rest, j, Remove(rest, j), node);
    MergeKeepsScore(queue, i, rest, j, Remove(rest, j), node);
    if AllWellScored(queue) {
      MergeKeepsWellScored(queue, i, rest, j, Remove(rest, j), node);
    }
    assert right.score >= left.score by {
      assert right == queue[if j < i then j else j + 1];
    }
    forall k | 0 <= k < |next| - 1 ensures right.score <= next[k].score {
      assert next[k] == rest[if k < j then k else k + 1];
    }
  }

  /** The merge loop of `huffman::encode`: merges until one tree is left. */
  method MergeAll(q: seq<Node>) returns (root: Node)
    requires |q| > 0
    requires AllWellScored(q)
    ensures Leaves(root) == ForestLeaves(q)
    ensures root.score == ForestScore(q)
    ensures WellScored(root)
  {
    var queue := q;
    while |queue| > 1
      invariant |queue| >= 1
      invariant ForestLeaves(queue) == ForestLeaves(q)
      invariant ForestScore(queue) == ForestScore(q)
      invariant AllWellScored(queue)
    {
      var i, j;
      queue, i, j := MergeLowest(queue);
    }
    root := queue[0];
    assert ForestLeaves(queue) == Leaves(root) + ForestLeaves([]);
    assert ForestScore(queue) == root.score + ForestScore([]);
  }

  /** The tree `huffman::encode` builds from a frequency table: its leaves are exactly the
      table's entries, every internal node scores the sum of its children, and the root
      scores the table's total. */
  method BuildTree(freq: map<byte, int>) returns (root: Node)
    requires |freq| > 0
    ensures Leaves(root) == Entries(freq)
    ensures WellScored(root)
    ensures root.score == Total(freq)
    ensures LeafCount(root) == |freq|
  {
    var queue := LoadLeaves(freq);
    root := MergeAll(queue);
    LeafCountIsSize(root);
    EntriesSize(freq);
  }

  /** A tree has as many leaf pairs as leaves. */
  lemma {:induction false} LeafCountIsSize(n: Node)
    ensures |Leaves(n)| == LeafCount(n)
  {
    match n
    case Leaf(_, _) =>
    case Internal(_, l, r) =>
      LeafCountIsSize(l);
      LeafCountIsSize(r);
  }

  // ---------------------------------------------------------------------------
  // The container: a 32-bit header holding the tree's length, then the tree

  /** A value 0..255 as a bit-vector byte. */
  function ToBv8(k: int): bv8
    requires 0 <= k < 256
  {
    (k as byte) as bv8
  }

  /** The four bytes of an `int` in memory, as `(char *)&length` exposes them: the 32-bit
      two's-complement pattern, least significant byte first (the little-endian layout of
      the target). */
  function IntBytes(x: int): (r: seq<bv8>)
    ensures |r| == 4
  {
    var u := x % UIntModulus;
    [ToBv8(u % 0x100), ToBv8(u / 0x100 % 0x100), ToBv8(u / 0x1_0000 % 0x100), ToBv8(u / 0x100_0000)]
  }

  /** The `unsigned int` whose memory bytes, least significant first, are `p`. */
  function BytesUInt(p: seq<bv8>): (r: int)
    requires |p| == 4
    ensures 0 <= r < UIntModulus
  {
    (p[0] as byte as int) + 0x100 * (p[1] as byte as int)
      + 0x1_0000 * (p[2] as byte as int) + 0x100_0000 * (p[3] as byte as int)
  }

  /** Reading back the bytes of an `int` as an `unsigned int` gives its value modulo 2^32. */
  lemma UIntRoundTrip(x: int)
    ensures BytesUInt(IntBytes(x)) == x % UIntModulus
  {
    var u := x % UIntModulus;
    var b0, b1, b2, b3 := u % 0x100, u / 0x100 % 0x100, u / 0x1_0000 % 0x100, u / 0x100_0000;
    ByteRoundTrip(b0 as byte);
    ByteRoundTrip(b1 as byte);
    ByteRoundTrip(b2 as byte);
    ByteRoundTrip(b3 as byte);
    DigitsOf(u);
  }

  /** The base-256 digits of a 32-bit value add back up to it. */
  lemma DigitsOf(u: int)
    requires 0 <= u < UIntModulus
    ensures u % 0x100 + 0x100 * (u / 0x100 % 0x100) + 0x1_0000 * (u / 0x1_0000 % 0x100)
            + 0x100_0000 * (u / 0x100_0000) == u
  {
    var q1 := u / 0x100;
    var q2 := q1 / 0x100;
    var q3 := q2 / 0x100;
    assert u == u % 0x100 + 0x100 * q1;
    assert q1 == q1 % 0x100 + 0x100 * q2;
    assert q2 == q2 % 0x100 + 0x100 * q3;
    assert q2 == u / 0x1_0000;
    assert q3 == u / 0x100_0000;
  }

  /** The bits `huffman::encode` writes: `write(&length, 31)`, the 32 bits of the header,
      then the serialised tree. */
  function ContainerBits(root: Node): (r: seq<bool>)
  {
    WriteBits(IntBytes(Length(root)), 31) + EncodeBits(root)
  }

  /** What `huffman::decode` makes of a bit stream: the header read as an `unsigned int`
      and the tree after it, or `None` when the stream ends first. */
  function DecodeContainer(bits: seq<bool>): (r: Option<(int, Node)>)
  {
    if |bits| < 32 then None
    else
      match DecodeBits(bits[32..])
      case None => None
      case Some((t, _)) => Some((BytesUInt(BitsToBytes(bits[..32])), t))
  }

  /** Decoding what `huffman::encode` wrote gives back the length `length()` reported and
      the tree's shape, whatever follows. */
  lemma ContainerRoundTrip(root: Node, rest: seq<bool>)
    ensures DecodeContainer(ContainerBits(root) + rest) == Some((Length(root) % UIntModulus, Shape(root)))
  {
    ContainerSplit(root, rest);
    HeaderRoundTrip(Length(root));
    DecodeEncode(root, rest);
  }

  /** The first 32 bits of the container are the bytes of the header; the tree follows. */
  lemma ContainerSplit(root: Node, rest: seq<bool>)
    ensures |ContainerBits(root) + rest| >= 32
    ensures (ContainerBits(root) + rest)[..32] == BytesToBits(IntBytes(Length(root)))
    ensures (ContainerBits(root) + rest)[32..] == EncodeBits(root) + rest
  {
    var header := IntBytes(Length(root));
    WriteBitsWhole(header, 4);
    assert header[..4] == header;
    var h := WriteBits(header, 31);
    assert |h| == 32;
    Concat(h, EncodeBits(root), rest);
  }

  /** The header read back is the length modulo 2^32. */
  lemma HeaderRoundTrip(x: int)
    ensures BytesUInt(BitsToBytes(BytesToBits(IntBytes(x)))) == x % UIntModulus
  {
    BytesToBitsToBytes(IntBytes(x));
    UIntRoundTrip(x);
  }

  lemma Concat(a: seq<bool>, b: seq<bool>, c: seq<bool>)
    ensures a + b + c == a + (b + c)
  {
  }

  /** `huffman::encode`: counts the input's bytes, builds the tree, writes its length as
      the header and then the tree. The input must not be empty: the source takes the top
      of the queue without checking. */
  method Encode(input: seq<byte>, out: BitWriter) returns (r: int, ghost root: Node)
    requires |input| > 0 && out.Valid()
    modifies out
    ensures out.Valid()
    ensures out.Written == old(out.Written) + ContainerBits(root)
    ensures Leaves(root) == Entries(Frequencies(input))
    ensures WellScored(root) && root.score == |input|
    ensures LeafCount(root) == |Frequencies(input)| && Length(root) == 10 * |Frequencies(input)| - 1
    ensures |Frequencies(input)| == 1 <==> root.Leaf?
    ensures r == 0
  {
    var frequences := CountFrequencies(input);
    FrequenciesCount(input, input[0]);
    var tree := BuildTree(frequences);
    TotalFrequencies(input);
    var length := Length(tree);
    ghost var before, header := out.Written, WriteBits(IntBytes(length), 31);
    out.Write(IntBytes(length), 31);
    EncodeNode(tree, out);
    Concat(before, header, EncodeBits(tree));
    root := tree;
    r := 0;
  }

  /** `huffman::decode`: reads the 32-bit header into `length`, whose bytes start out as
      `uninit` (the source reads into an uninitialised variable; every bit is overwritten),
      then the tree. Running out of bits is excluded by the precondition. */
  method Decode(inp: BitReader, uninit: seq<bv8>) returns (r: int, length: int, root: Node)
    requires inp.Valid() && |uninit| == 4
    requires DecodeContainer(inp.Rest()).Some?
    modifies inp
    ensures inp.Valid()
    ensures DecodeContainer(old(inp.Rest())) == Some((length, root))
    ensures DecodeBits(old(inp.Rest())[32..]) == Some((root, inp.Rest()))
    ensures r == 0
  {
    ghost var bits := inp.Rest();
    var p := new bv8[4];
    p[0], p[1], p[2], p[3] := uninit[0], uninit[1], uninit[2], uninit[3];
    assert p[..] == uninit;
    inp.Read(p, 32);
    HeaderBytes(uninit, bits[..32]);
    length := BytesUInt(p[..]);
    root := DecodeNode(inp);
    r := 0;
  }

  /** Reading 32 bits into four bytes, whatever they held, gives the bits grouped into bytes. */
  lemma HeaderBytes(p: seq<bv8>, bits: seq<bool>)
    requires |p| == 4 && |bits| == 32
    ensures ReadInto(p, bits) == BitsToBytes(bits)
  {
    var q := BitsToBytes(bits);
    BitsToBytesToBits(bits);
    ReadIntoBytes(p, q);
    assert p[4..] == [];
  }

  // ---------------------------------------------------------------------------
  // The stream as the encoder leaves it

  /** The container is always an odd number of bits: 32 for the header and `10k - 1` for a
      tree of `k` leaves. */
  lemma ContainerLength(root: Node)
    ensures |ContainerBits(root)| == 32 + 10 * LeafCount(root) - 1
  {
    EncodedLength(root);
  }

  /** A container written from the start onto a bit writer leaves 1 to 7 bits pending. */
  lemma PendingTail(root: Node, sent: seq<bv8>, pending: seq<bool>)
    requires BytesToBits(sent) + pending == ContainerBits(root) && |pending| < 8
    ensures 0 < |pending| && 8 * |sent| < |ContainerBits(root)|
  {
    ContainerLength(root);
    OddLength(|sent|, |pending|, LeafCount(root));
  }

  /** `8a + p` is even when `p` is 0, `10k + 31` never is. */
  lemma OddLength(a: int, p: int, k: int)
    requires 8 * a + p == 32 + 10 * k - 1 && 0 <= p
    ensures p != 0
  {
  }

  /** The bytes a bit writer has sent, once the container is written from the start, stop
      inside the tree: the trailing bits stay pending, and the bytes sent do not hold a
      whole tree. */
  lemma UnsentTail(root: Node, sent: seq<bv8>, pending: seq<bool>)
    requires BytesToBits(sent) + pending == ContainerBits(root) && |pending| < 8
    ensures 0 < |pending|
    ensures DecodeContainer(BytesToBits(sent)) == None
  {
    PendingTail(root, sent, pending);
    var bits := BytesToBits(sent);
    if |bits| >= 32 {
      var header, tree := WriteBits(IntBytes(Length(root)), 31), EncodeBits(root);
      EncodedLength(root);
      DropHeader(bits, pending, header, tree);
      EncodingPrefixFree(root, |bits| - 32);
    }
  }

  /** Bits that, with `pending` after them, are `header + tree` continue past the header
      with a prefix of `tree`. */
  lemma DropHeader(bits: seq<bool>, pending: seq<bool>, header: seq<bool>, tree: seq<bool>)
    requires bits + pending == header + tree && |header| <= |bits|
    ensures bits[|header|..] == tree[..|bits| - |header|]
  {
    var all := bits + pending;
    assert bits == all[..|bits|];
    assert tree == all[|header|..];
  }

  /** A container padded with zero bits decodes to the tree's length and shape. */
  lemma PaddedContainer(root: Node, bits: seq<bool>, k: nat)
    requires bits == ContainerBits(root) + Zeros(k)
    ensures DecodeContainer(bits) == Some((Length(root) % UIntModulus, Shape(root)))
  {
    ContainerRoundTrip(root, Zeros(k));
  }

  /** `huffman::encode` on a fresh `obstream`, as written: the bytes that reach the output
      stream, which miss the last bits of the tree and so do not decode. */
  method EncodeToBytes(input: seq<byte>) returns (sent: seq<bv8>, ghost root: Node)
    requires |input| > 0
    ensures Leaves(root) == Entries(Frequencies(input))
    ensures 8 * |sent| < |ContainerBits(root)| < 8 * |sent| + 8
    ensures BytesToBits(sent) == ContainerBits(root)[..8 * |sent|]
    ensures DecodeContainer(BytesToBits(sent)) == None
  {
    var out := new BitWriter();
    var r;
    r, root := Encode(input, out);
    assert out.Written == ContainerBits(root);
    PendingTail(root, out.out, out.Pending);
    UnsentTail(root, out.out, out.Pending);
    sent := out.out;
  }

  /** `huffman::encode` on a fresh `obstream` followed by a flush of the partial byte: the
      bytes sent hold the whole container and decode to the tree's length and shape. */
  method EncodeToBytesFlushed(input: seq<byte>) returns (sent: seq<bv8>, ghost root: Node)
    requires |input| > 0
    ensures Leaves(root) == Entries(Frequencies(input))
    ensures DecodeContainer(BytesToBits(sent)) == Some((Length(root) % UIntModulus, Shape(root)))
    ensures DecodeContainer(BytesToBits(sent)).Some?
    ensures LeafCount(DecodeContainer(BytesToBits(sent)).value.1) == |Frequencies(input)|
  {
    var out := new BitWriter();
    var r;
    r, root := Encode(input, out);
    assert out.Written == ContainerBits(root);
    ghost var k := if out.shift == 0 then 0 else 8 - out.shift;
    out.Flush();
    PaddedContainer(root, BytesToBits(out.out), k);
    ShapeLeafCount(root);
    sent := out.out;
  }
}
