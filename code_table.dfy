/**
 * Code derivation: `printHuffmanTree` walks the tree depth first, appending
 * '0' on the way to a left child and '1' on the way to a right child, and
 * records the path of every leaf in the code map.
 */
module CodeTable {
  import opened Bytes
  import opened Tree

  /** The node reached from `t` by following `path`; `None` when the path leaves the tree. */
  function Walk(t: Node, path: string): Option<Node>
    decreases |path|
  {
    if path == [] then Some(t)
    else match t
      case Leaf(_, _) => None
      case Internal(_, l, r) =>
        if path[0] == '0' then Walk(l, path[1..])
        else if path[0] == '1' then Walk(r, path[1..])
        else None
  }

  /** Following `path` from `t` ends at a leaf holding `c`. */
  predicate LeadsTo(t: Node, path: string, c: byte)
  {
    var n := Walk(t, path);
    n.Some? && n.value.Leaf? && n.value.ch == c
  }

  /**
   * `printHuffmanTree(t, code, characters_codes)`, with the map it fills in
   * place threaded through as `acc`: a leaf stores `code` under its
   * character, an internal node visits its left subtree, then its right one.
   */
  function CodesFrom(t: Node, code: string, acc: map<byte, string>): map<byte, string>
  {
    match t
    case Leaf(c, _) => acc[c := code]
    case Internal(_, l, r) => CodesFrom(r, code + ['1'], CodesFrom(l, code + ['0'], acc))
  }

  /**
   * The leaves of `t` get an entry, every other entry is left alone, and each
   * entry for a leaf character is `code` followed by the path from `t` to a
   * leaf with that character.
   */
  lemma {:induction false} CodesFromFacts(t: Node, code: string, acc: map<byte, string>)
    ensures CodesFrom(t, code, acc).Keys == acc.Keys + LeafChars(t)
    ensures forall c :: c in acc && c !in LeafChars(t) ==> CodesFrom(t, code, acc)[c] == acc[c]
    ensures forall c :: c in LeafChars(t) ==>
      code <= CodesFrom(t, code, acc)[c] && LeadsTo(t, CodesFrom(t, code, acc)[c][|code|..], c)
  {
    match t
    case Leaf(c, _) =>
    case Internal(_, l, rt) =>
      var afterLeft := CodesFrom(l, code + ['0'], acc);
      var r := CodesFrom(rt, code + ['1'], afterLeft);
      CodesFromFacts(l, code + ['0'], acc);
      CodesFromFacts(rt, code + ['1'], afterLeft);
      forall c | c in LeafChars(t)
        ensures code <= r[c] && LeadsTo(t, r[c][|code|..], c)
      {
        var s := r[c][|code|..];
        if c in LeafChars(rt) {
          assert s[0] == '1' && s[1..] == r[c][|code| + 1..];
        } else {
          assert r[c] == afterLeft[c];
          assert s[0] == '0' && s[1..] == r[c][|code| + 1..];
        }
      }
  }

  /**
   * The code map of a tree, `printHuffmanTree(root, "", characters_codes)`
   * on an empty map: one entry per leaf character, each the path from the
   * root to a leaf with that character; nothing for a null root, and the
   * empty code for a lone leaf.
   */
  function Codes(root: Option<Node>): (codes: map<byte, string>)
    ensures root.None? ==> codes == map[]
    ensures root.Some? ==> codes.Keys == LeafChars(root.value)
    ensures root.Some? ==> forall c :: c in codes ==> LeadsTo(root.value, codes[c], c)
    ensures root.Some? && root.value.Leaf? ==> codes == map[root.value.ch := []]
  {
    match root
    case None => map[]
    case Some(t) => CodesFromFacts(t, [], map[]); CodesFrom(t, [], map[])
  }

  /** A path that reaches a node uses only '0' and '1'. */
  lemma {:induction false} WalkUsesBits(t: Node, path: string)
    requires Walk(t, path).Some?
    ensures IsBitString(path)
    decreases |path|
  {
    if path != [] {
      WalkUsesBits(if path[0] == '0' then t.left else t.right, path[1..]);
    }
  }

  /**
   * Two paths to leaves, one a prefix of the other, are the same path and
   * reach the same character: a leaf has no children to continue from.
   */
  lemma {:induction false} PathsToLeavesArePrefixFree(t: Node, p: string, q: string, c: byte, d: byte)
    requires LeadsTo(t, p, c) && LeadsTo(t, q, d) && p <= q
    ensures p == q && c == d
    decreases |p|
  {
    if p != [] {
      assert q[0] == p[0];
      var child := if p[0] == '0' then t.left else t.right;
      PathsToLeavesArePrefixFree(child, p[1..], q[1..], c, d);
    }
  }

  /** No code of the map is a prefix of the code of another character. */
  lemma CodesArePrefixFree(root: Option<Node>)
    ensures forall c, d :: c in Codes(root) && d in Codes(root) && c != d ==> !(Codes(root)[c] <= Codes(root)[d])
  {
    var codes := Codes(root);
    forall c, d | c in codes && d in codes && c != d
      ensures !(codes[c] <= codes[d])
    {
      if codes[c] <= codes[d] {
        PathsToLeavesArePrefixFree(root.value, codes[c], codes[d], c, d);
      }
    }
  }

  /** Every code of the map is a bit string, and a non-empty one when the root is internal. */
  lemma CodesAreBitStrings(root: Option<Node>)
    ensures forall c :: c in Codes(root) ==> IsBitString(Codes(root)[c])
    ensures root.Some? && root.value.Internal? ==> forall c :: c in Codes(root) ==> |Codes(root)[c]| > 0
  {
    forall c | c in Codes(root) ensures IsBitString(Codes(root)[c]) {
      WalkUsesBits(root.value, Codes(root)[c]);
    }
  }
}
