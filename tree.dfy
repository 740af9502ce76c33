/**
 * `Node` and `build_huffman_tree`: seed a list with one leaf per distinct
 * byte, then repeatedly pop the two lightest nodes and push their merge
 * until a single node, the root, is left.
 */
module HuffmanTree {
  import opened BitStrings
  import opened Frequency
  import opened Wrappers

  /**
   * A tree node. A leaf carries a byte value (`symbol`, the source's `char`) and its count; a merged
   * node has no byte value, the sum of its children's counts and exactly two
   * children.
   */
  datatype Node = Leaf(symbol: Byte, freq: nat) | Merged(freq: nat, left: Node, right: Node)

  /** `Node.__lt__`: nodes are ordered by count alone. */
  predicate Less(a: Node, b: Node) {
    a.freq < b.freq
  }

  /** The byte values of the leaves, left to right. */
  function Leaves(t: Node): (s: seq<Byte>)
    ensures |s| >= 1
  {
    match t
    case Leaf(c, _) => [c]
    case Merged(_, l, r) => Leaves(l) + Leaves(r)
  }

  /** No byte value labels two leaves. */
  ghost predicate UniqueLeaves(t: Node) {
    forall b :: multiset(Leaves(t))[b] <= 1
  }

  /** Leaves carry the table's counts; merged nodes carry the sum of their children's. */
  ghost predicate CountsMatch(t: Node, freq: FrequencyTable) {
    match t
    case Leaf(c, f) => c in freq && f == freq[c]
    case Merged(f, l, r) => f == l.freq + r.freq && CountsMatch(l, freq) && CountsMatch(r, freq)
  }

  /** Each byte value of the table below `bound` occurs exactly once in `leaves`, and nothing else does. */
  ghost predicate OneLeafPerKey(leaves: seq<Byte>, freq: FrequencyTable, bound: nat) {
    forall x :: multiset(leaves)[x] == if x in freq && x < bound then 1 else 0
  }

  /** The leaves of all nodes of a heap, in list order. */
  function HeapLeaves(heap: seq<Node>): seq<Byte> {
    if heap == [] then [] else Leaves(heap[0]) + HeapLeaves(heap[1..])
  }

  /** The sum of the counts of the nodes of a heap. */
  function HeapWeight(heap: seq<Node>): nat {
    if heap == [] then 0 else heap[0].freq + HeapWeight(heap[1..])
  }

  /**
   * `heapq.heappop`: removes and returns a node that no other node is less
   * than. The list representation of the heap is not modelled; the first
   * minimal node in list order is taken.
   */
  method PopMin(heap: seq<Node>) returns (n: Node, rest: seq<Node>, i: nat)
    requires heap != []
    ensures i < |heap| && n == heap[i] && rest == heap[..i] + heap[i + 1..]
    ensures forall u :: u in heap ==> !Less(u, n)
  {
    i := 0;
    var k := 1;
    while k < |heap|
      invariant i < k <= |heap|
      invariant forall j :: 0 <= j < k ==> !Less(heap[j], heap[i])
    {
      if Less(heap[k], heap[i]) {
        i := k;
      }
      k := k + 1;
    }
    n := heap[i];
    rest := heap[..i] + heap[i + 1..];
  }

  /**
   * What the heap holds at every step: nodes that agree with the table,
   * together one leaf for each byte value of the table below `bound`, and
   * the sum of those values' counts.
   */
  ghost predicate Forest(heap: seq<Node>, freq: FrequencyTable, bound: nat)
    requires bound <= 256
  {
    && (forall k :: 0 <= k < |heap| ==> CountsMatch(heap[k], freq))
    && OneLeafPerKey(HeapLeaves(heap), freq, bound)
    && HeapWeight(heap) == SumBelow(freq, bound)
  }

  /**
   * `[Node(byte, freq) for byte, freq in freq_table.items()]`: one leaf per
   * table entry, taken here in ascending byte order.
   */
  method InitialHeap(freq: FrequencyTable) returns (heap: seq<Node>)
    ensures forall u :: u in heap ==> u.Leaf?
    ensures Forest(heap, freq, 256)
  {
    heap := [];
    for b := 0 to 256
      invariant forall u :: u in heap ==> u.Leaf?
      invariant Forest(heap, freq, b)
    {
      SeedStep(heap, freq, b);
      if b in freq {
        heap := heap + [Leaf(b, freq[b])];
      }
    }
  }

  method BuildHuffmanTree(freq: FrequencyTable) returns (root: Option<Node>)
    ensures root.None? <==> |freq| == 0
    ensures root.Some? ==> CountsMatch(root.value, freq)
    ensures root.Some? ==> OneLeafPerKey(Leaves(root.value), freq, 256)
    ensures root.Some? ==> root.value.freq == Total(freq)
  {
    var heap := InitialHeap(freq);
    while |heap| > 1
      invariant Forest(heap, freq, 256)
      decreases |heap|
    {
      ghost var before := heap;
      var n1, n2, i1, i2;
      n1, heap, i1 := PopMin(heap);
      ghost var middle := heap;
      n2, heap, i2 := PopMin(heap);
      var merged := Merged(n1.freq + n2.freq, n1, n2);
      MergeStep(before, middle, heap, freq, i1, i2, merged);
      heap := heap + [merged];
    }

    FinalHeap(heap, freq);
    if |heap| == 0 {
      // `heap[0]` raises IndexError on an empty table
      return None;
    }
    return Some(heap[0]);
  }

  /** The loop ends with no node for an empty table and with the root otherwise. */
  lemma FinalHeap(heap: seq<Node>, freq: FrequencyTable)
    requires Forest(heap, freq, 256) && |heap| <= 1
    ensures |heap| == 0 <==> |freq| == 0
    ensures |heap| == 1 ==> CountsMatch(heap[0], freq) && heap[0].freq == Total(freq)
    ensures |heap| == 1 ==> OneLeafPerKey(Leaves(heap[0]), freq, 256)
  {
    if |heap| == 0 {
      forall x ensures x !in freq {
        assert multiset(HeapLeaves(heap))[x] == if x in freq then 1 else 0;
      }
      assert freq.Keys == {};
    } else {
      var t := heap[0];
      assert heap == [t];
      HeapOfOne(t);
      assert multiset(Leaves(t))[Leaves(t)[0]] > 0;
    }
  }

  lemma SeedStep(heap: seq<Node>, freq: FrequencyTable, b: Byte)
    requires Forest(heap, freq, b)
    ensures b in freq ==> Forest(heap + [Leaf(b, freq[b])], freq, b + 1)
    ensures b !in freq ==> Forest(heap, freq, b + 1)
  {
    if b in freq {
      var leaf := Leaf(b, freq[b]);
      var grown := heap + [leaf];
      HeapPush(heap, leaf);
      PushPreservesCounts(heap, freq, leaf);
      assert multiset(Leaves(leaf)) == multiset{b};
      forall x ensures multiset(HeapLeaves(grown))[x] == if x in freq && x < b + 1 then 1 else 0 {
        assert multiset(HeapLeaves(grown))[x] == multiset(HeapLeaves(heap))[x] + multiset{b}[x];
      }
      assert HeapWeight(grown) == SumBelow(freq, b + 1);
    } else {
      assert SumBelow(freq, b + 1) == SumBelow(freq, b);
    }
  }

  /** Popping nodes `i` and then `j` and pushing their merge keeps the heap a forest for the table. */
  lemma MergeStep(heap: seq<Node>, rest: seq<Node>, rest2: seq<Node>, freq: FrequencyTable, i: nat, j: nat, merged: Node)
    requires Forest(heap, freq, 256)
    requires i < |heap| && rest == heap[..i] + heap[i + 1..]
    requires j < |rest| && rest2 == rest[..j] + rest[j + 1..]
    requires merged == Merged(heap[i].freq + rest[j].freq, heap[i], rest[j])
    ensures Forest(rest2 + [merged], freq, 256)
  {
    MergeLeaves(heap, rest, rest2, i, j, merged);
    RemovePreservesCounts(heap, rest, freq, i);
    assert CountsMatch(heap[i], freq) && CountsMatch(rest[j], freq);
    RemovePreservesCounts(rest, rest2, freq, j);
    PushPreservesCounts(rest2, freq, merged);
  }

  lemma MergeLeaves(heap: seq<Node>, rest: seq<Node>, rest2: seq<Node>, i: nat, j: nat, merged: Node)
    requires i < |heap| && rest == heap[..i] + heap[i + 1..]
    requires j < |rest| && rest2 == rest[..j] + rest[j + 1..]
    requires merged == Merged(heap[i].freq + rest[j].freq, heap[i], rest[j])
    ensures multiset(HeapLeaves(rest2 + [merged])) == multiset(HeapLeaves(heap))
    ensures HeapWeight(rest2 + [merged]) == HeapWeight(heap)
  {
    HeapRemove(heap, i);
    HeapRemove(rest, j);
    HeapPush(rest2, merged);
  }

  lemma RemovePreservesCounts(heap: seq<Node>, rest: seq<Node>, freq: FrequencyTable, i: nat)
    requires i < |heap| && rest == heap[..i] + heap[i + 1..]
    requires forall k :: 0 <= k < |heap| ==> CountsMatch(heap[k], freq)
    ensures forall k :: 0 <= k < |rest| ==> CountsMatch(rest[k], freq)
  {
    forall k | 0 <= k < |rest| ensures CountsMatch(rest[k], freq) {
      assert rest[k] == if k < i then heap[k] else heap[k + 1];
    }
  }

  lemma PushPreservesCounts(heap: seq<Node>, freq: FrequencyTable, n: Node)
    requires forall k :: 0 <= k < |heap| ==> CountsMatch(heap[k], freq)
    requires CountsMatch(n, freq)
    ensures forall k :: 0 <= k < |heap| + 1 ==> CountsMatch((heap + [n])[k], freq)
  {
  }

  lemma {:induction false} HeapAppend(a: seq<Node>, b: seq<Node>)
    ensures HeapLeaves(a + b) == HeapLeaves(a) + HeapLeaves(b)
    ensures HeapWeight(a + b) == HeapWeight(a) + HeapWeight(b)
  {
    if a == [] {
      assert a + b == b;
    } else {
      HeapAppend(a[1..], b);
      assert (a + b)[0] == a[0];
      assert (a + b)[1..] == a[1..] + b;
    }
  }

  lemma HeapOfOne(n: Node)
    ensures HeapLeaves([n]) == Leaves(n) && HeapWeight([n]) == n.freq
  {
    assert [n][1..] == [];
  }

  /** Pushing a node adds its leaves and its count to the heap's. */
  lemma HeapPush(heap: seq<Node>, n: Node)
    ensures multiset(HeapLeaves(heap + [n])) == multiset(HeapLeaves(heap)) + multiset(Leaves(n))
    ensures HeapWeight(heap + [n]) == HeapWeight(heap) + n.freq
  {
    HeapAppend(heap, [n]);
    HeapOfOne(n);
  }

  /** Taking node `i` out of a heap takes its leaves and its count out of the heap's. */
  lemma HeapRemove(heap: seq<Node>, i: nat)
    requires i < |heap|
    ensures multiset(HeapLeaves(heap)) == multiset(HeapLeaves(heap[..i] + heap[i + 1..])) + multiset(Leaves(heap[i]))
    ensures HeapWeight(heap) == HeapWeight(heap[..i] + heap[i + 1..]) + heap[i].freq
  {
    var front, back := heap[..i], heap[i + 1..];
    assert front + [heap[i]] + back == heap by {
      assert heap == heap[..i] + heap[i..];
      assert heap[i..] == [heap[i]] + back;
    }
    HeapSplit(front, heap[i], back);
  }

  lemma HeapSplit(front: seq<Node>, n: Node, back: seq<Node>)
    ensures multiset(HeapLeaves(front + [n] + back)) == multiset(HeapLeaves(front + back)) + multiset(Leaves(n))
    ensures HeapWeight(front + [n] + back) == HeapWeight(front + back) + n.freq
  {
    HeapAppend(front + [n], back);
    HeapAppend(front, [n]);
    HeapAppend(front, back);
    HeapOfOne(n);
    MultisetMiddle(HeapLeaves(front), Leaves(n), HeapLeaves(back));
  }

  lemma MultisetMiddle(front: seq<Byte>, mid: seq<Byte>, back: seq<Byte>)
    ensures multiset(front + mid + back) == multiset(front + back) + multiset(mid)
  {
  }

  /** A table with exactly one leaf per byte value gives a tree whose leaves are distinct. */
  lemma KeyLeavesUnique(t: Node, freq: FrequencyTable)
    requires OneLeafPerKey(Leaves(t), freq, 256)
    ensures UniqueLeaves(t)
    ensures forall b :: b in Leaves(t) <==> b in freq
  {
    forall b ensures multiset(Leaves(t))[b] <= 1 && (b in Leaves(t) <==> b in freq) {
      assert multiset(Leaves(t))[b] == if b in freq then 1 else 0;
    }
  }

  /** Below a node with distinct leaves, each child has distinct leaves and the two share none. */
  lemma UniqueChildren(t: Node)
    requires t.Merged? && UniqueLeaves(t)
    ensures UniqueLeaves(t.left) && UniqueLeaves(t.right)
    ensures forall b :: b in Leaves(t.left) ==> b !in Leaves(t.right)
  {
    forall b
      ensures multiset(Leaves(t.left))[b] <= 1 && multiset(Leaves(t.right))[b] <= 1
      ensures b in Leaves(t.left) ==> b !in Leaves(t.right)
    {
      assert multiset(Leaves(t))[b] == multiset(Leaves(t.left))[b] + multiset(Leaves(t.right))[b];
    }
  }

  /** A merged node of a tree with distinct leaves has at least two distinct byte values below it. */
  lemma MergedHasTwoSymbols(t: Node)
    requires t.Merged? && UniqueLeaves(t)
    ensures exists x, y :: x in Leaves(t) && y in Leaves(t) && x != y
  {
    var x := Leaves(t.left)[0];
    var y := Leaves(t.right)[0];
    UniqueChildren(t);
    assert x in Leaves(t) && y in Leaves(t);
  }
}
