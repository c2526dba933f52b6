/**
 * Huffman tree construction: the `Node` structure, the `Compare` order of
 * the priority queue, and `huffmanTree`, which drains the queue by merging
 * its two best nodes until one is left.
 */
module Tree {
  import opened Bytes
  import opened Frequencies

  /**
   * A tree node. A leaf holds a symbol and its frequency; an internal node
   * holds the sum of its children's frequencies and always has two children.
   */
  datatype Node = Leaf(ch: byte, freq: int) | Internal(freq: int, left: Node, right: Node)

  /** The `character` field of a node: internal nodes are built with '\0'. */
  function Character(n: Node): byte { if n.Leaf? then n.ch else 0 }

  /**
   * `Compare::operator()`: true when `l` has LOWER priority than `r`, that is
   * a higher frequency, or the same frequency and a higher character.
   */
  function Compare(l: Node, r: Node): bool
  {
    if l.freq != r.freq then l.freq > r.freq else Character(l) > Character(r)
  }

  /** `a` comes no later than `b`: (frequency, character) is lexicographically no greater. */
  predicate KeyAtMost(a: Node, b: Node)
  {
    a.freq < b.freq || (a.freq == b.freq && Character(a) <= Character(b))
  }

  /** `Compare` is the reverse of the lexicographic order on (frequency, character). */
  lemma CompareIsReversedKeyOrder(a: Node, b: Node)
    ensures Compare(a, b) <==> !KeyAtMost(a, b)
    ensures !Compare(a, b) || !Compare(b, a)
    ensures !Compare(a, b) && !Compare(b, a) <==> a.freq == b.freq && Character(a) == Character(b)
  {
  }

  lemma CompareIsTransitive(a: Node, b: Node, c: Node)
    ensures Compare(a, b) && Compare(b, c) ==> Compare(a, c)
    ensures !Compare(a, b) && !Compare(b, c) ==> !Compare(a, c)
  {
  }

  /**
   * `x` may be the top of a priority queue ordered by `Compare`: no node of
   * the queue has higher priority.
   */
  predicate IsTop(x: Node, heap: seq<Node>)
  {
    x in heap && forall y :: y in heap ==> !Compare(x, y)
  }

  /**
   * `heap.top()`: the index of a node that the queue may hand out first,
   * one of smallest frequency and, among those, of smallest character.
   * Which of several nodes with the same key is chosen is not specified.
   */
  method TopIndex(heap: seq<Node>) returns (t: nat)
    requires |heap| > 0
    ensures t < |heap| && IsTop(heap[t], heap)
  {
    t := 0;
    for j := 1 to |heap|
      invariant t < j
      invariant forall k :: 0 <= k < j ==> !Compare(heap[t], heap[k])
    {
      if Compare(heap[t], heap[j]) {
        t := j;
      }
    }
  }

  /** The leaves of a tree, with their frequencies. */
  function LeafBag(t: Node): multiset<Node>
  {
    match t
    case Leaf(_, _) => multiset{t}
    case Internal(_, l, r) => LeafBag(l) + LeafBag(r)
  }

  /** The characters at the leaves of a tree. */
  function LeafChars(t: Node): set<byte>
  {
    match t
    case Leaf(c, _) => {c}
    case Internal(_, l, r) => LeafChars(l) + LeafChars(r)
  }

  function InternalCount(t: Node): nat
  {
    match t
    case Leaf(_, _) => 0
    case Internal(_, l, r) => 1 + InternalCount(l) + InternalCount(r)
  }

  /**
   * The shape every merge produces: an internal node carries the sum of its
   * children's frequencies, and its left child (popped first) is no later in
   * the queue order than its right child.
   */
  predicate WellFormed(t: Node)
  {
    match t
    case Leaf(_, _) => true
    case Internal(f, l, r) =>
      f == l.freq + r.freq && !Compare(l, r) && WellFormed(l) && WellFormed(r)
  }

  /** Every leaf of the bag is a leaf, and its character is among the leaf characters. */
  lemma {:induction false} LeafBagShape(t: Node)
    ensures |LeafBag(t)| >= 1
    ensures forall x :: x in LeafBag(t) ==> x.Leaf? && x.ch in LeafChars(t)
    ensures forall c :: c in LeafChars(t) ==> exists x :: x in LeafBag(t) && x.ch == c
    ensures t.Leaf? <==> |LeafBag(t)| == 1
    ensures InternalCount(t) == |LeafBag(t)| - 1
  {
    match t
    case Leaf(_, _) =>
    case Internal(_, l, r) =>
      LeafBagShape(l);
      LeafBagShape(r);
  }

  /** The leaves the queue starts with: one per key below `k`, in ascending key order. */
  function EntriesBelow(m: map<byte, int>, k: nat): seq<Node>
    requires k <= 256
  {
    if k == 0 then []
    else EntriesBelow(m, k - 1) + (if (k - 1) as byte in m then [Leaf((k - 1) as byte, m[(k - 1) as byte])] else [])
  }

  /** The leaves pushed by the loop over the `std::map`, which runs in ascending key order. */
  function Entries(m: map<byte, int>): seq<Node> { EntriesBelow(m, 256) }

  function KeysBelow(m: map<byte, int>, k: nat): set<byte>
  {
    set b | b in m && b < k
  }

  lemma {:induction false} EntriesBelowCount(m: map<byte, int>, k: nat)
    requires k <= 256
    ensures |EntriesBelow(m, k)| == |KeysBelow(m, k)|
  {
    if k == 0 {
      assert KeysBelow(m, k) == {};
    } else {
      EntriesBelowCount(m, k - 1);
      var b := (k - 1) as byte;
      if b in m {
        assert KeysBelow(m, k) == KeysBelow(m, k - 1) + {b};
      } else {
        assert KeysBelow(m, k) == KeysBelow(m, k - 1);
      }
    }
  }

  lemma {:induction false} EntriesBelowMembers(m: map<byte, int>, k: nat)
    requires k <= 256
    ensures forall x :: x in EntriesBelow(m, k) <==> x.Leaf? && x.ch < k && x.ch in m && x.freq == m[x.ch]
  {
    if k > 0 { EntriesBelowMembers(m, k - 1); }
  }

  lemma {:induction false} EntriesBelowSorted(m: map<byte, int>, k: nat)
    requires k <= 256
    ensures forall i, j :: 0 <= i < j < |EntriesBelow(m, k)| ==> Character(EntriesBelow(m, k)[i]) < Character(EntriesBelow(m, k)[j])
  {
    if k > 0 {
      EntriesBelowSorted(m, k - 1);
      EntriesBelowMembers(m, k - 1);
      var prev := EntriesBelow(m, k - 1);
      assert forall i :: 0 <= i < |prev| ==> prev[i] in prev;
    }
  }

  lemma {:induction false} EntriesBelowTotal(m: map<byte, int>, k: nat)
    requires k <= 256
    ensures TotalBelow(m, k) == HeapFreq(EntriesBelow(m, k))
  {
    if k > 0 {
      EntriesBelowTotal(m, k - 1);
      var b := (k - 1) as byte;
      if b in m {
        var prev := EntriesBelow(m, k - 1);
        HeapFreqConcat(prev, [Leaf(b, m[b])]);
        HeapFreqSingleton(Leaf(b, m[b]));
      } else {
        assert EntriesBelow(m, k) == EntriesBelow(m, k - 1);
      }
    }
  }

  lemma {:induction false} EntriesBelowLeaves(m: map<byte, int>, k: nat)
    requires k <= 256
    ensures HeapLeaves(EntriesBelow(m, k)) == multiset(EntriesBelow(m, k))
  {
    if k > 0 {
      EntriesBelowLeaves(m, k - 1);
      var b := (k - 1) as byte;
      if b in m {
        var prev := EntriesBelow(m, k - 1);
        var leaf := Leaf(b, m[b]);
        assert EntriesBelow(m, k) == prev + [leaf];
        HeapLeavesConcat(prev, [leaf]);
        HeapLeavesSingleton(leaf);
        assert multiset(prev + [leaf]) == multiset(prev) + multiset{leaf};
      } else {
        assert EntriesBelow(m, k) == EntriesBelow(m, k - 1);
      }
    }
  }

  /**
   * The initial leaves describe the table exactly: one leaf per key, with
   * that key's count, sorted by character, adding up to the table's total.
   */
  lemma EntriesFacts(m: map<byte, int>)
    ensures |Entries(m)| == |m|
    ensures forall x :: x in Entries(m) <==> x.Leaf? && x.ch in m && x.freq == m[x.ch]
    ensures forall i, j :: 0 <= i < j < |Entries(m)| ==> Character(Entries(m)[i]) < Character(Entries(m)[j])
    ensures Total(m) == HeapFreq(Entries(m))
    ensures HeapLeaves(Entries(m)) == multiset(Entries(m))
  {
    EntriesBelowCount(m, 256);
    EntriesBelowMembers(m, 256);
    EntriesBelowSorted(m, 256);
    EntriesBelowTotal(m, 256);
    EntriesBelowLeaves(m, 256);
    assert KeysBelow(m, 256) == m.Keys;
  }

  /** All leaves of all nodes in the queue. */
  function HeapLeaves(heap: seq<Node>): multiset<Node>
  {
    if heap == [] then multiset{} else HeapLeaves(heap[..|heap| - 1]) + LeafBag(heap[|heap| - 1])
  }

  /** Sum of the frequencies of the nodes in the queue. */
  function HeapFreq(heap: seq<Node>): int
  {
    if heap == [] then 0 else HeapFreq(heap[..|heap| - 1]) + heap[|heap| - 1].freq
  }

  /** Multiset union is associative and commutative; stated once so the solver need not search for it. */
  lemma UnionSwap<T>(a: multiset<T>, b: multiset<T>, c: multiset<T>)
    ensures (a + b) + c == (a + c) + b
  {
  }

  lemma UnionAssoc<T>(a: multiset<T>, b: multiset<T>, c: multiset<T>)
    ensures (a + b) + c == a + (b + c)
  {
  }

  lemma HeapLeavesSingleton(x: Node)
    ensures HeapLeaves([x]) == LeafBag(x)
  {
    assert [x][..0] == [];
  }

  lemma HeapFreqSingleton(x: Node)
    ensures HeapFreq([x]) == x.freq
  {
    assert [x][..0] == [];
  }

  lemma {:induction false} HeapLeavesConcat(a: seq<Node>, b: seq<Node>)
    ensures HeapLeaves(a + b) == HeapLeaves(a) + HeapLeaves(b)
  {
    if b == [] {
      assert a + b == a;
    } else {
      HeapLeavesConcat(a, b[..|b| - 1]);
      assert (a + b)[..|a + b| - 1] == a + b[..|b| - 1];
    }
  }

  lemma {:induction false} HeapFreqConcat(a: seq<Node>, b: seq<Node>)
    ensures HeapFreq(a + b) == HeapFreq(a) + HeapFreq(b)
  {
    if b == [] {
      assert a + b == a;
    } else {
      HeapFreqConcat(a, b[..|b| - 1]);
      assert (a + b)[..|a + b| - 1] == a + b[..|b| - 1];
    }
  }

  /** The queue after popping the node at index `i`. */
  function RemoveAt(heap: seq<Node>, i: nat): seq<Node>
    requires i < |heap|
  {
    heap[..i] + heap[i + 1..]
  }

  /** Popping the node at index `i` takes its leaves out of the queue. */
  lemma HeapRemoveLeaves(heap: seq<Node>, i: nat)
    requires i < |heap|
    ensures HeapLeaves(heap) == HeapLeaves(RemoveAt(heap, i)) + LeafBag(heap[i])
  {
    var a, x, b := heap[..i], heap[i], heap[i + 1..];
    calc {
      HeapLeaves(heap);
      { SplitAt(heap, i); }
      HeapLeaves((a + [x]) + b);
      { SplitLeaves(a, x, b); }
      HeapLeaves(a + b) + LeafBag(x);
    }
  }

  lemma SplitAt<T>(s: seq<T>, i: nat)
    requires i < |s|
    ensures s == (s[..i] + [s[i]]) + s[i + 1..]
  {
  }

  lemma SplitLeaves(a: seq<Node>, x: Node, b: seq<Node>)
    ensures HeapLeaves((a + [x]) + b) == HeapLeaves(a + b) + LeafBag(x)
  {
    var la, lb, lx := HeapLeaves(a), HeapLeaves(b), LeafBag(x);
    assert HeapLeaves((a + [x]) + b) == la + lx + lb by {
      HeapLeavesConcat(a + [x], b);
      HeapLeavesConcat(a, [x]);
      HeapLeavesSingleton(x);
    }
    assert HeapLeaves(a + b) == la + lb by {
      HeapLeavesConcat(a, b);
    }
    UnionSwap(la, lx, lb);
  }

  /** Popping the node at index `i` takes its frequency out of the queue. */
  lemma HeapRemoveFreq(heap: seq<Node>, i: nat)
    requires i < |heap|
    ensures HeapFreq(heap) == HeapFreq(RemoveAt(heap, i)) + heap[i].freq
  {
    var a, x, b := heap[..i], [heap[i]], heap[i + 1..];
    calc {
      HeapFreq(heap);
      { SplitAt(heap, i); }
      HeapFreq((a + x) + b);
      { HeapFreqConcat(a + x, b); }
      HeapFreq(a + x) + HeapFreq(b);
      { HeapFreqConcat(a, x); HeapFreqSingleton(heap[i]); }
      HeapFreq(a) + heap[i].freq + HeapFreq(b);
      { HeapFreqConcat(a, b); }
      HeapFreq(a + b) + heap[i].freq;
    }
  }

  /** Popping leaves one node fewer, all of them nodes of the original queue. */
  lemma RemoveAtMembers(heap: seq<Node>, i: nat)
    requires i < |heap|
    ensures |RemoveAt(heap, i)| == |heap| - 1
    ensures forall n :: n in RemoveAt(heap, i) ==> n in heap
  {
    var rest := RemoveAt(heap, i);
    forall n | n in rest ensures n in heap {
      var k :| 0 <= k < |rest| && rest[k] == n;
      if k < i { assert heap[k] == n; } else { assert heap[k + 1] == n; }
    }
  }

  /** A merge of two queued nodes, the first popped being the top, is well formed. */
  lemma MergeWellFormed(heap: seq<Node>, left: Node, right: Node)
    requires forall n :: n in heap ==> WellFormed(n)
    requires IsTop(left, heap) && right in heap
    ensures WellFormed(Internal(left.freq + right.freq, left, right))
  {
  }

  /**
   * Popping the top `heap[i]`, then the top `rest[j]` of what is left, and
   * pushing their merge with the first popped node as its left child.
   */
  predicate MergeAt(heap: seq<Node>, i: nat, j: nat, next: seq<Node>)
    requires i < |heap| && j < |heap| - 1
  {
    var rest := RemoveAt(heap, i);
    IsTop(heap[i], heap) && IsTop(rest[j], rest)
    && next == RemoveAt(rest, j) + [Internal(heap[i].freq + rest[j].freq, heap[i], rest[j])]
  }

  /** `next` is what one iteration of the loop of `huffmanTree` may leave in the queue `heap`. */
  ghost predicate HuffmanStep(heap: seq<Node>, next: seq<Node>)
  {
    exists i: nat, j: nat :: i < |heap| && j < |heap| - 1 && MergeAt(heap, i, j, next)
  }

  /**
   * A run of `huffmanTree` on `freqMap`: the queue starts with the table's
   * leaves in key order, every step is a `HuffmanStep`, and the queue ends
   * holding just the root, or nothing for an empty table.
   */
  ghost predicate HuffmanRun(freqMap: map<byte, int>, trace: seq<seq<Node>>, root: Option<Node>)
  {
    |trace| >= 1 && trace[0] == Entries(freqMap)
    && trace[|trace| - 1] == (if root.Some? then [root.value] else [])
    && Steps(trace)
  }

  /** Each queue of `trace` follows from the one before by a `HuffmanStep`. */
  ghost predicate Steps(trace: seq<seq<Node>>)
  {
    forall k :: 0 <= k < |trace| - 1 ==> HuffmanStep(trace[k], trace[k + 1])
  }

  /** A run extends by one more step. */
  lemma StepsSnoc(trace: seq<seq<Node>>, next: seq<Node>)
    requires |trace| >= 1 && Steps(trace) && HuffmanStep(trace[|trace| - 1], next)
    ensures Steps(trace + [next])
  {
    var t := trace + [next];
    forall k | 0 <= k < |t| - 1 ensures HuffmanStep(t[k], t[k + 1]) {
      if k < |trace| - 1 {
        assert t[k] == trace[k] && t[k + 1] == trace[k + 1];
      }
    }
  }

  /**
   * One iteration of the loop of `huffmanTree`: pop the top as the left
   * child, pop the next top as the right child, push their merge. The queue
   * loses one node and keeps its leaves and its total frequency.
   */
  method MergeTopTwo(heap: seq<Node>) returns (next: seq<Node>)
    requires |heap| > 1
    requires forall n :: n in heap ==> WellFormed(n)
    ensures |next| == |heap| - 1
    ensures forall n :: n in next ==> WellFormed(n)
    ensures HeapLeaves(next) == HeapLeaves(heap)
    ensures HeapFreq(next) == HeapFreq(heap)
    ensures HuffmanStep(heap, next)
  {
    var i := TopIndex(heap);
    var left := heap[i];
    var rest := RemoveAt(heap, i);
    RemoveAtMembers(heap, i);
    var j := TopIndex(rest);
    var right := rest[j];
    var others := RemoveAt(rest, j);
    RemoveAtMembers(rest, j);
    var internalNode := Internal(left.freq + right.freq, left, right);
    MergeWellFormed(heap, left, right);
    next := others + [internalNode];
    assert HeapLeaves(next) == HeapLeaves(heap) by {
      HeapRemoveLeaves(heap, i);
      HeapRemoveLeaves(rest, j);
      HeapLeavesConcat(others, [internalNode]);
      HeapLeavesSingleton(internalNode);
      UnionAssoc(HeapLeaves(others), LeafBag(left), LeafBag(right));
    }
    assert HeapFreq(next) == HeapFreq(heap) by {
      HeapRemoveFreq(heap, i);
      HeapRemoveFreq(rest, j);
      HeapFreqConcat(others, [internalNode]);
      HeapFreqSingleton(internalNode);
    }
    assert MergeAt(heap, i, j, next);
  }

  /**
   * The steps pin down which nodes merge: from leaves a:1, b:1, c:10 the
   * tie between a and b goes to the lower character, so a and b merge
   * first, a on the left, and the pair then merges with c.
   */
  lemma ThreeLeafMerges(n1: seq<Node>, n2: seq<Node>)
    requires HuffmanStep([Leaf(97, 1), Leaf(98, 1), Leaf(99, 10)], n1)
    requires HuffmanStep(n1, n2)
    ensures n1 == [Leaf(99, 10), Internal(2, Leaf(97, 1), Leaf(98, 1))]
    ensures n2 == [Internal(12, Internal(2, Leaf(97, 1), Leaf(98, 1)), Leaf(99, 10))]
  {
    var a, b, c := Leaf(97, 1), Leaf(98, 1), Leaf(99, 10);
    FirstOfThree(a, b, c, n1);
    SecondOfTwo(c, Internal(2, a, b), n2);
  }

  /** From three nodes that rank a, then b, then c, a step merges a and b, a on the left. */
  lemma FirstOfThree(a: Node, b: Node, c: Node, n1: seq<Node>)
    requires Compare(b, a) && Compare(c, a) && Compare(c, b)
    requires HuffmanStep([a, b, c], n1)
    ensures n1 == [c, Internal(a.freq + b.freq, a, b)]
  {
    var h := [a, b, c];
    var i: nat, j: nat :| i < 3 && j < 2 && MergeAt(h, i, j, n1);
    TopOfThree(a, b, c, i);
    var rest := RemoveAt(h, 0);
    assert rest == [b, c] by { RemoveFront(h); }
    TopOfTwo(c, b, j);
    assert RemoveAt(rest, 0) == [c] by { RemoveFront(rest); }
  }

  lemma TopOfThree(a: Node, b: Node, c: Node, i: nat)
    requires Compare(b, a) && Compare(c, a)
    requires i < 3 && IsTop([a, b, c][i], [a, b, c])
    ensures i == 0
  {
    assert a in [a, b, c];
  }

  lemma TopOfTwo(x: Node, y: Node, j: nat)
    requires Compare(x, y)
    requires j < 2 && IsTop([y, x][j], [y, x])
    ensures j == 0
  {
    assert y in [y, x];
  }

  /** From two nodes of which y ranks first, a step merges them, y on the left. */
  lemma SecondOfTwo(x: Node, y: Node, n2: seq<Node>)
    requires Compare(x, y)
    requires HuffmanStep([x, y], n2)
    ensures n2 == [Internal(y.freq + x.freq, y, x)]
  {
    var h := [x, y];
    var i: nat, j: nat :| i < 2 && j < 1 && MergeAt(h, i, j, n2);
    assert i == 1 by { assert y in h; }
    assert RemoveAt(h, 1) == [x] by { RemoveBack(h); }
    assert RemoveAt([x], 0) == [] by { RemoveFront([x]); }
  }

  lemma RemoveFront(heap: seq<Node>)
    requires |heap| > 0
    ensures RemoveAt(heap, 0) == heap[1..]
  {
  }

  lemma RemoveBack(heap: seq<Node>)
    requires |heap| > 0
    ensures RemoveAt(heap, |heap| - 1) == heap[..|heap| - 1]
  {
  }

  /** The loop over the `std::map` that pushes one leaf per entry, in ascending key order. */
  method InitialHeap(freqMap: map<byte, int>) returns (heap: seq<Node>)
    ensures heap == Entries(freqMap)
  {
    heap := [];
    for k := 0 to 256
      invariant heap == EntriesBelow(freqMap, k)
    {
      if k as byte in freqMap {
        heap := heap + [Leaf(k as byte, freqMap[k as byte])];
      }
    }
  }

  /** What the last node left in the queue inherits from the queue's invariant. */
  lemma SoleNode(r: Node, freqMap: map<byte, int>)
    requires WellFormed(r) && freqMap != map[]
    requires HeapLeaves([r]) == multiset(Entries(freqMap))
    requires HeapFreq([r]) == Total(freqMap)
    ensures LeafBag(r) == multiset(Entries(freqMap))
    ensures LeafChars(r) == freqMap.Keys
    ensures r.freq == Total(freqMap)
    ensures InternalCount(r) == |freqMap| - 1
    ensures r.Leaf? <==> |freqMap| == 1
  {
    HeapLeavesSingleton(r);
    HeapFreqSingleton(r);
    EntriesFacts(freqMap);
    LeafBagShape(r);
    assert LeafChars(r) == freqMap.Keys by {
      forall c | c in freqMap ensures c in LeafChars(r) {
        assert Leaf(c, freqMap[c]) in Entries(freqMap);
      }
    }
  }

  /**
   * `huffmanTree`: push one leaf per table entry, then merge the two top
   * nodes while more than one node is queued. An empty table gives no tree;
   * a one-entry table gives its leaf unmerged; otherwise the root is
   * internal, every merge is well formed, the leaves are exactly the table's
   * entries, the root carries the table's total and there are n - 1 merges.
   * The ghost `trace` holds the queue before each iteration and after the
   * last one, so the run is a `HuffmanRun`.
   */
  method BuildHuffmanTree(freqMap: map<byte, int>) returns (root: Option<Node>, ghost trace: seq<seq<Node>>)
    ensures HuffmanRun(freqMap, trace, root)
    ensures root.None? <==> freqMap == map[]
    ensures root.Some? ==> WellFormed(root.value)
    ensures root.Some? ==> LeafBag(root.value) == multiset(Entries(freqMap))
    ensures root.Some? ==> LeafChars(root.value) == freqMap.Keys
    ensures root.Some? ==> root.value.freq == Total(freqMap)
    ensures root.Some? ==> InternalCount(root.value) == |freqMap| - 1
    ensures root.Some? ==> (root.value.Leaf? <==> |freqMap| == 1)
  {
    var heap := InitialHeap(freqMap);
    EntriesFacts(freqMap);
    assert |heap| == 0 <==> freqMap == map[];
    trace := [heap];

    while |heap| > 1
      invariant forall n :: n in heap ==> WellFormed(n)
      invariant HeapLeaves(heap) == multiset(Entries(freqMap))
      invariant HeapFreq(heap) == Total(freqMap)
      invariant |heap| == 0 <==> freqMap == map[]
      invariant |trace| >= 1 && trace[0] == Entries(freqMap) && trace[|trace| - 1] == heap
      invariant Steps(trace)
      decreases |heap|
    {
      var next := MergeTopTwo(heap);
      StepsSnoc(trace, next);
      heap, trace := next, trace + [next];
    }

    if |heap| == 0 {
      root := None;
    } else {
      assert heap == [heap[0]];
      SoleNode(heap[0], freqMap);
      root := Some(heap[0]);
    }
  }
}
