/** The tree-building half of `Huffman::encode`: counting the bytes, seeding
    the `std::priority_queue<HuffmanNode>` with one leaf per distinct byte,
    merging the two least entries until one is left, and reading each
    symbol's code off the parent links of its leaf. */
module HuffmanTree {
  import opened Bytes

  /** A `HuffmanNode` on the heap, as `new HuffmanNode(...)` creates it. */
  class HuffmanNode {
    var name: byte
    var value: int
    var bit: char8
    var parent: HuffmanNode?

    constructor (name: byte, value: int, bit: char8, parent: HuffmanNode?)
      ensures this.name == name && this.value == value
      ensures this.bit == bit && this.parent == parent
    {
      this.name := name;
      this.value := value;
      this.bit := bit;
      this.parent := parent;
    }

    /** The copy of this node that `pq.push(*node)` stores in the queue. */
    function Copy(): NodeCopy
      reads this
    {
      NodeCopy(name, value, bit, parent)
    }
  }

  /** A `HuffmanNode` held by value inside the priority queue. Changing the
      object it was copied from does not change it. */
  datatype NodeCopy = NodeCopy(name: byte, value: int, bit: char8, parent: HuffmanNode?)

  /** `HuffmanNode::operator<`, inverted: `a < b` when `a` has the larger
      value. */
  predicate Less(a: NodeCopy, b: NodeCopy)
  {
    a.value > b.value
  }

  /** Entry `a` can be `pq.top()`: no entry is greater than it under `Less`. */
  predicate IsTop(pq: seq<NodeCopy>, a: int)
    requires 0 <= a < |pq|
  {
    forall j :: 0 <= j < |pq| ==> !Less(pq[a], pq[j])
  }

  /** Because `Less` is inverted, the top of the queue is an entry of least
      value. */
  lemma TopIsLeast(pq: seq<NodeCopy>, a: int)
    requires 0 <= a < |pq|
    ensures IsTop(pq, a) <==> forall j :: 0 <= j < |pq| ==> pq[a].value <= pq[j].value
  {
  }

  /** A non-empty queue has a top. */
  lemma {:induction false} TopIndex(pq: seq<NodeCopy>) returns (a: int)
    requires |pq| > 0
    ensures 0 <= a < |pq| && IsTop(pq, a)
    decreases |pq|
  {
    if |pq| == 1 {
      a := 0;
    } else {
      var init := pq[..|pq| - 1];
      var b := TopIndex(init);
      assert forall j :: 0 <= j < |init| ==> init[j] == pq[j];
      a := if pq[b].value <= pq[|pq| - 1].value then b else |pq| - 1;
    }
  }

  /** `x` is an entry of least value among `entries`. */
  ghost predicate IsLeast(x: NodeCopy, entries: multiset<NodeCopy>)
  {
    x in entries && forall y :: y in entries ==> x.value <= y.value
  }

  /** The sum of the values in the queue. */
  function SumValues(pq: seq<NodeCopy>): int
  {
    if pq == [] then 0 else SumValues(pq[..|pq| - 1]) + pq[|pq| - 1].value
  }

  lemma {:induction false} SumConcat(p: seq<NodeCopy>, q: seq<NodeCopy>)
    ensures SumValues(p + q) == SumValues(p) + SumValues(q)
    decreases |q|
  {
    if q == [] {
      assert p + q == p;
    } else {
      var init := q[..|q| - 1];
      SumConcat(p, init);
      assert (p + q)[..|p + q| - 1] == p + init;
      assert (p + q)[|p + q| - 1] == q[|q| - 1];
    }
  }

  lemma SumAppend(p: seq<NodeCopy>, x: NodeCopy)
    ensures SumValues(p + [x]) == SumValues(p) + x.value
  {
    assert (p + [x])[..|p|] == p;
  }

  /** `pq.top()` then `pq.pop()`: some entry of least value comes out; the
      others stay, and the values that stay add up to the old sum less the
      popped value. */
  method PopTop(pq: seq<NodeCopy>) returns (top: NodeCopy, rest: seq<NodeCopy>)
    requires |pq| > 0
    ensures IsLeast(top, multiset(pq))
    ensures multiset(pq) == multiset(rest) + multiset{top}
    ensures |rest| == |pq| - 1
    ensures SumValues(pq) == top.value + SumValues(rest)
  {
    // Which of several least entries `std::priority_queue` pops depends on
    // its heap layout, so the pick is left open: `TopIndex` shows one exists.
    var _ := TopIndex(pq);
    var b :| 0 <= b < |pq| && IsTop(pq, b);
    top := pq[b];
    rest := pq[..b] + pq[b + 1..];
    assert pq == pq[..b] + [top] + pq[b + 1..];
    SumConcat(pq[..b] + [top], pq[b + 1..]);
    SumConcat(pq[..b], [top]);
    SumConcat(pq[..b], pq[b + 1..]);
    assert SumValues([top]) == top.value by {
      assert [top][..0] == [];
    }
    forall x | x in multiset(pq)
      ensures top.value <= x.value
    {
      var j :| 0 <= j < |pq| && pq[j] == x;
      TopIsLeast(pq, b);
    }
  }

  /** The node pushed by one merge: name `'\0'`, no tag, no parent, and the
      two popped values added. */
  function Merged(left: NodeCopy, right: NodeCopy): NodeCopy
  {
    NodeCopy(0, left.value + right.value, '\0', null)
  }

  /** The node-making part of one merge: fresh `left` and `right` nodes are
      made from the two popped copies and linked to a fresh internal node,
      whose copy is what gets pushed. None of these nodes is a leaf recorded
      in `base_nodes`. */
  method LinkPair(first: NodeCopy, second: NodeCopy) returns (merged: NodeCopy)
    ensures merged == Merged(first, second)
  {
    var leftNode := new HuffmanNode(first.name, first.value, '0', null);
    var rightNode := new HuffmanNode(second.name, second.value, '1', null);
    var internalNode := new HuffmanNode(0, leftNode.value + rightNode.value, '\0', null);
    leftNode.parent := internalNode;
    rightNode.parent := internalNode;
    merged := internalNode.Copy();
  }

  /** Two pops and a push, counted as multisets. */
  lemma PopTwo(pq: seq<NodeCopy>, afterFirst: seq<NodeCopy>, rest: seq<NodeCopy>,
               first: NodeCopy, second: NodeCopy, merged: NodeCopy)
    requires multiset(pq) == multiset(afterFirst) + multiset{first}
    requires multiset(afterFirst) == multiset(rest) + multiset{second}
    ensures multiset(rest + [merged]) == multiset(pq) - multiset{first, second} + multiset{merged}
  {
    var x := multiset(rest);
    assert multiset(pq) == x + multiset{first, second};
    MultisetCancel(x, multiset{first, second}, multiset{merged});
    assert multiset(rest + [merged]) == x + multiset{merged};
  }

  lemma MultisetCancel(x: multiset<NodeCopy>, y: multiset<NodeCopy>, z: multiset<NodeCopy>)
    ensures x + y - y + z == x + z
  {
  }

  /** One iteration of the `while (pq.size() > 1)` loop: pop the two least
      entries and push the node that joins them. */
  method MergeStep(pq: seq<NodeCopy>) returns (next: seq<NodeCopy>, first: NodeCopy, second: NodeCopy)
    requires |pq| > 1
    ensures IsLeast(first, multiset(pq))
    ensures IsLeast(second, multiset(pq) - multiset{first})
    ensures multiset(next) == multiset(pq) - multiset{first, second} + multiset{Merged(first, second)}
    ensures |next| == |pq| - 1
    ensures SumValues(next) == SumValues(pq)
  {
    var afterFirst, rest: seq<NodeCopy>;
    first, afterFirst := PopTop(pq);
    second, rest := PopTop(afterFirst);
    var merged := LinkPair(first, second);
    next := rest + [merged];
    assert multiset(afterFirst) == multiset(pq) - multiset{first};
    PopTwo(pq, afterFirst, rest, first, second, merged);
    SumAppend(rest, merged);
  }

  /** The whole `while (pq.size() > 1)` loop: it ends with one entry for a
      non-empty queue and none for an empty one, and never changes the sum
      of the values. It allocates nodes but changes no node that existed
      before, so the leaves in `base_nodes` keep a null parent. */
  method MergeLoop(pq: seq<NodeCopy>) returns (rest: seq<NodeCopy>)
    ensures |rest| == if |pq| == 0 then 0 else 1
    ensures SumValues(rest) == SumValues(pq)
  {
    rest := pq;
    while |rest| > 1
      invariant |rest| == 0 <==> |pq| == 0
      invariant SumValues(rest) == SumValues(pq)
      decreases |rest|
    {
      var first, second;
      rest, first, second := MergeStep(rest);
    }
  }

  /** The value left in a queue of one entry is the sum of the values the
      queue started with. */
  lemma RootValue(pq: seq<NodeCopy>, rest: seq<NodeCopy>)
    requires |rest| == 1 && SumValues(rest) == SumValues(pq)
    ensures rest[0].value == SumValues(pq)
  {
    assert rest[..0] == [];
  }

  /** The sum of the values of a map keyed by bytes, smallest key first. */
  function MapSum(m: map<byte, int>): int
    decreases |m|
  {
    if m == map[] then 0
    else
      var k := Least(m.Keys);
      assert |m - {k}| == |m| - 1 by {
        assert (m - {k}).Keys == m.Keys - {k};
      }
      m[k] + MapSum(m - {k})
  }

  /** The sum does not depend on which key is taken out first. */
  lemma {:induction false} MapSumRemove(m: map<byte, int>, b: byte)
    requires b in m
    ensures MapSum(m) == m[b] + MapSum(m - {b})
    decreases |m|
  {
    var k := Least(m.Keys);
    if b != k {
      assert (m - {k}).Keys == m.Keys - {k} && (m - {b}).Keys == m.Keys - {b};
      MapSumRemove(m - {k}, b);
      MapSumRemove(m - {b}, k);
      assert m - {k} - {b} == m - {b} - {k};
    }
  }

  /** `counts[byte]++`: the sum grows by one. */
  lemma MapSumIncrement(m: map<byte, int>, b: byte)
    ensures MapSum(m[b := (if b in m then m[b] else 0) + 1]) == MapSum(m) + 1
  {
    var m' := m[b := (if b in m then m[b] else 0) + 1];
    MapSumRemove(m', b);
    assert m' - {b} == m - {b};
    if b in m {
      MapSumRemove(m, b);
    } else {
      assert m - {b} == m;
    }
  }

  /** The counting loop `for (byte : message) counts[byte]++`, where a
      missing key starts at 0. */
  method CountBytes(message: seq<byte>) returns (counts: map<byte, int>)
    ensures forall b :: b in counts <==> b in message
    ensures forall b :: b in counts ==> counts[b] == multiset(message)[b]
    ensures MapSum(counts) == |message|
  {
    counts := map[];
    for i := 0 to |message|
      invariant forall b :: b in counts <==> b in message[..i]
      invariant forall b :: b in counts ==> counts[b] == multiset(message[..i])[b]
      invariant MapSum(counts) == i
    {
      var b := message[i];
      assert message[..i + 1] == message[..i] + [b];
      MapSumIncrement(counts, b);
      counts := counts[b := (if b in counts then counts[b] else 0) + 1];
    }
    assert message[..|message|] == message;
  }

  /** The leaf copies pushed for `keys`, in that order. */
  function Leaves(counts: map<byte, int>, keys: seq<byte>): seq<NodeCopy>
    requires forall j :: 0 <= j < |keys| ==> keys[j] in counts
  {
    seq(|keys|, j requires 0 <= j < |keys| => NodeCopy(keys[j], counts[keys[j]], '\0', null))
  }

  /** The leaves of a map, pushed in ascending key order, add up to the
      map's sum. */
  lemma {:induction false} LeavesSum(m: map<byte, int>)
    ensures SumValues(Leaves(m, SortedKeys(m))) == MapSum(m)
    decreases |m|
  {
    if m != map[] {
      var k := Least(m.Keys);
      var ks := SortedKeys(m - {k});
      LeavesSum(m - {k});
      SortedKeysStep(m);
      LeavesFront(m, k, ks);
      SumFront(NodeCopy(k, m[k], '\0', null), Leaves(m - {k}, ks));
      MapSumStep(m);
    }
  }

  /** The smallest key comes first, then the others in order. */
  lemma SortedKeysStep(m: map<byte, int>)
    requires m != map[]
    ensures SortedKeys(m) == [Least(m.Keys)] + SortedKeys(m - {Least(m.Keys)})
  {
    assert (m - {Least(m.Keys)}).Keys == m.Keys - {Least(m.Keys)};
  }

  lemma MapSumStep(m: map<byte, int>)
    requires m != map[]
    ensures MapSum(m) == m[Least(m.Keys)] + MapSum(m - {Least(m.Keys)})
  {
  }

  /** The leaves of `[k] + ks`: the leaf of `k`, then those of `ks`, whose
      counts are the same without `k`. */
  lemma LeavesFront(m: map<byte, int>, k: byte, ks: seq<byte>)
    requires k in m && forall j :: 0 <= j < |ks| ==> ks[j] in m - {k}
    ensures Leaves(m, [k] + ks) == [NodeCopy(k, m[k], '\0', null)] + Leaves(m - {k}, ks)
  {
    var l, r := Leaves(m, [k] + ks), [NodeCopy(k, m[k], '\0', null)] + Leaves(m - {k}, ks);
    assert |l| == |r|;
    forall j | 0 <= j < |l|
      ensures l[j] == r[j]
    {
      if j > 0 {
        assert ([k] + ks)[j] == ks[j - 1];
      }
    }
  }

  lemma SumFront(x: NodeCopy, rest: seq<NodeCopy>)
    ensures SumValues([x] + rest) == x.value + SumValues(rest)
  {
    SumConcat([x], rest);
    assert [x][..0] == [];
  }

  /** The loop over `counts` that makes a leaf per symbol, pushes a copy of
      it and records the leaf itself in `base_nodes`. */
  method SeedQueue(counts: map<byte, int>) returns (pq: seq<NodeCopy>, baseNodes: map<byte, HuffmanNode>)
    ensures pq == Leaves(counts, SortedKeys(counts))
    ensures baseNodes.Keys == counts.Keys
    ensures forall k :: k in baseNodes ==> fresh(baseNodes[k])
    ensures forall k :: k in baseNodes ==>
      baseNodes[k].name == k && baseNodes[k].value == counts[k] && baseNodes[k].parent == null
  {
    var keys: seq<byte> := SortedKeys(counts);
    pq := [];
    baseNodes := map[];
    for i := 0 to |keys|
      invariant pq == Leaves(counts, keys[..i])
      invariant forall k :: k in baseNodes <==> k in keys[..i]
      invariant forall k :: k in baseNodes ==> fresh(baseNodes[k])
      invariant forall k :: k in baseNodes ==>
        baseNodes[k].name == k && baseNodes[k].value == counts[k] && baseNodes[k].parent == null
    {
      var key: byte := keys[i];
      var node := new HuffmanNode(key, counts[key], '\0', null);
      pq := pq + [node.Copy()];
      baseNodes := baseNodes[key := node];
      assert keys[..i + 1] == keys[..i] + [key];
    }
    assert keys[..|keys|] == keys;
  }

  /** `chain` is the path of parent links from `chain[0]` to a node without
      a parent. */
  ghost predicate IsParentChain(chain: seq<HuffmanNode>)
    reads chain
  {
    |chain| >= 1 &&
    (forall i {:trigger chain[i].parent} :: 0 <= i < |chain| - 1 ==> chain[i].parent == chain[i + 1]) &&
    chain[|chain| - 1].parent == null
  }

  /** The tags of `nodes`, the last node's tag first. */
  ghost function Tags(nodes: seq<HuffmanNode>): (code: Code)
    reads nodes
    ensures |code| == |nodes|
  {
    if nodes == [] then [] else [nodes[|nodes| - 1].bit] + Tags(nodes[..|nodes| - 1])
  }

  /** Character `j` of the tags is the tag of the `j`-th node from the end. */
  lemma {:induction false} TagsOrder(nodes: seq<HuffmanNode>)
    ensures forall j :: 0 <= j < |nodes| ==> Tags(nodes)[j] == nodes[|nodes| - 1 - j].bit
    decreases |nodes|
  {
    if nodes != [] {
      var init := nodes[..|nodes| - 1];
      var rest := Tags(init);
      TagsOrder(init);
      assert Tags(nodes) == [nodes[|nodes| - 1].bit] + rest;
      forall j | 1 <= j < |nodes|
        ensures Tags(nodes)[j] == nodes[|nodes| - 1 - j].bit
      {
        assert rest[j - 1] == init[|init| - 1 - (j - 1)].bit;
        assert init[|init| - 1 - (j - 1)] == nodes[|nodes| - 1 - j];
      }
    }
  }

  /** The code read off a parent chain: the tag of every node but the root,
      the node nearest the root first. */
  ghost function ChainCode(chain: seq<HuffmanNode>): (code: Code)
    reads chain
  {
    if chain == [] then [] else Tags(chain[..|chain| - 1])
  }

  /** A code has one character per parent link, and its last character is
      the leaf's own tag. */
  lemma ChainCodeShape(chain: seq<HuffmanNode>)
    requires |chain| >= 1
    ensures |ChainCode(chain)| == |chain| - 1
    ensures |chain| > 1 ==> ChainCode(chain)[|chain| - 2] == chain[0].bit
  {
    TagsOrder(chain[..|chain| - 1]);
  }

  /** `chain` is the parent chain of `leaf` and `code` is read off it. */
  ghost predicate ReadsOff(leaf: HuffmanNode, chain: seq<HuffmanNode>, code: Code)
    reads chain
  {
    IsParentChain(chain) && chain[0] == leaf && ChainCode(chain) == code
  }

  /** Walks the parent links up from a leaf, putting each node's tag in
      front of the code; `expected` is the code read off the leaf's parent
      chain. */
  method WalkToRoot(leaf: HuffmanNode, ghost chain: seq<HuffmanNode>, ghost expected: Code) returns (code: Code)
    requires ReadsOff(leaf, chain, expected)
    ensures code == expected
  {
    code := [];
    var current := leaf;
    ghost var i := 0;
    while current.parent != null
      invariant 0 <= i < |chain| && current == chain[i]
      invariant i < |chain| - 1 ==> current.parent == chain[i + 1]
      invariant code == Tags(chain[..i])
      decreases |chain| - i
    {
      assert chain[..i + 1][..i] == chain[..i];
      code := [current.bit] + code;
      current := current.parent;
      i := i + 1;
    }
    assert chain[..i] == chain[..|chain| - 1];
  }

  /** The loop over `base_nodes` that fills `translation`; `codes[k]` is the
      code read off the parent chain `chains[k]` of leaf `k`. */
  method ExtractCodes(baseNodes: map<byte, HuffmanNode>, ghost chains: map<byte, seq<HuffmanNode>>,
                      ghost codes: Table)
    returns (translation: Table)
    requires forall k :: k in baseNodes ==> k in chains && k in codes && ReadsOff(baseNodes[k], chains[k], codes[k])
    ensures translation.Keys == baseNodes.Keys
    ensures forall k :: k in baseNodes ==> translation[k] == codes[k]
  {
    var keys: seq<byte> := SortedKeys(baseNodes);
    translation := map[];
    for i := 0 to |keys|
      invariant translation == Filled(codes, keys[..i])
    {
      var key: byte := keys[i];
      var code := WalkToRoot(baseNodes[key], chains[key], codes[key]);
      FilledStep(codes, keys, i);
      translation := translation[key := code];
    }
    FilledAll(codes, keys);
  }

  /** The table after `translation[k] = codes[k]` for each `k` of `ks` in
      turn. */
  ghost function Filled(codes: map<byte, Code>, ks: seq<byte>): Table
    decreases |ks|
  {
    if ks == [] then map[]
    else
      var k := ks[|ks| - 1];
      Filled(codes, ks[..|ks| - 1])[k := if k in codes then codes[k] else []]
  }

  lemma FilledStep(codes: map<byte, Code>, keys: seq<byte>, i: nat)
    requires i < |keys| && keys[i] in codes
    ensures Filled(codes, keys[..i + 1]) == Filled(codes, keys[..i])[keys[i] := codes[keys[i]]]
  {
    assert keys[..i + 1][..i] == keys[..i];
  }

  lemma {:induction false} FilledLookup(codes: map<byte, Code>, ks: seq<byte>)
    requires forall j :: 0 <= j < |ks| ==> ks[j] in codes
    ensures forall k :: k in Filled(codes, ks) <==> k in ks
    ensures forall k :: k in Filled(codes, ks) ==> Filled(codes, ks)[k] == codes[k]
    decreases |ks|
  {
    if ks != [] {
      var init := ks[..|ks| - 1];
      FilledLookup(codes, init);
      assert ks == init + [ks[|ks| - 1]];
    }
  }

  lemma FilledAll(codes: map<byte, Code>, keys: seq<byte>)
    requires forall j :: 0 <= j < |keys| ==> keys[j] in codes
    ensures forall k :: k in Filled(codes, keys[..|keys|]) <==> k in keys
    ensures forall k :: k in Filled(codes, keys[..|keys|]) ==> Filled(codes, keys[..|keys|])[k] == codes[k]
  {
    assert keys[..|keys|] == keys;
    FilledLookup(codes, keys);
  }

  /** A leaf that never got a parent has the empty code. */
  lemma UnlinkedLeafCode(leaf: HuffmanNode)
    requires leaf.parent == null
    ensures IsParentChain([leaf]) && ChainCode([leaf]) == []
  {
  }
}
