/**
 * Decoding: `decodeHuffmanCode` walks the tree bit by bit, emits a leaf's
 * character whenever it reaches one and starts again from the root.
 */
module Decoder {
  import opened Bytes
  import opened Tree
  import opened CodeTable

  /**
   * What decoding yields: the decoded text (the empty text after an invalid
   * bit, as the source returns ""), or the dereference of a missing child,
   * which the source does not survive.
   */
  datatype DecodeResult = Decoded(text: seq<byte>) | NullChild

  /**
   * Decoding the rest `bits` of the stream when the walk stands at `current`
   * and `acc` has been emitted so far.
   */
  function Resume(root: Node, current: Node, bits: string, acc: seq<byte>): DecodeResult
    decreases |bits|
  {
    if bits == [] then Decoded(acc)
    else if !IsBit(bits[0]) then Decoded([])
    else if current.Leaf? then NullChild
    else
      var next := if bits[0] == '0' then current.left else current.right;
      if next.Leaf? then Resume(root, root, bits[1..], acc + [next.ch])
      else Resume(root, next, bits[1..], acc)
  }

  /** The meaning of `decodeHuffmanCode(root, bits)`; a null root decodes to "". */
  function Decode(root: Option<Node>, bits: string): DecodeResult
  {
    match root
    case None => Decoded([])
    case Some(r) => Resume(r, r, bits, [])
  }

  /** `decodeHuffmanCode`: the loop over the bits, updating `current` and the decoded text. */
  method DecodeHuffmanCode(root: Option<Node>, encodedText: string) returns (result: DecodeResult)
    ensures result == Decode(root, encodedText)
  {
    if root.None? {
      return Decoded([]);
    }
    var r := root.value;
    var current := r;
    var decodedText: seq<byte> := [];
    for i := 0 to |encodedText|
      invariant Resume(r, current, encodedText[i..], decodedText) == Resume(r, r, encodedText, [])
    {
      var bit := encodedText[i];
      assert encodedText[i..][0] == bit && encodedText[i..][1..] == encodedText[i + 1..];
      if bit == '0' {
        if current.Leaf? {
          return NullChild;
        }
        current := current.left;
      } else if bit == '1' {
        if current.Leaf? {
          return NullChild;
        }
        current := current.right;
      } else {
        return Decoded([]);
      }
      if current.Leaf? {
        decodedText := decodedText + [current.ch];
        current := r;
      }
    }
    return Decoded(decodedText);
  }

  /**
   * From an internal node, a code that leads to a leaf holding `c` emits `c`
   * and brings the walk back to the root, whatever follows.
   */
  lemma {:induction false} ResumeCode(root: Node, current: Node, code: string, rest: string, acc: seq<byte>, c: byte)
    requires root.Internal? && current.Internal?
    requires LeadsTo(current, code, c)
    ensures Resume(root, current, code + rest, acc) == Resume(root, root, rest, acc + [c])
    decreases |code|
  {
    var bits := code + rest;
    assert bits[0] == code[0] && bits[1..] == code[1..] + rest;
    var next := if code[0] == '0' then current.left else current.right;
    assert Walk(current, code) == Walk(next, code[1..]);
    if next.Leaf? {
      assert code[1..] == [];
      assert bits[1..] == rest;
    } else {
      ResumeCode(root, next, code[1..], rest, acc, c);
    }
  }

  /**
   * Bits that stop at an internal node (the start of a code, cut short) emit
   * nothing and are dropped at the end of the stream.
   */
  lemma {:induction false} ResumeUnfinished(root: Node, current: Node, tail: string, acc: seq<byte>)
    requires root.Internal? && current.Internal?
    requires Walk(current, tail).Some? && Walk(current, tail).value.Internal?
    ensures Resume(root, current, tail, acc) == Decoded(acc)
    decreases |tail|
  {
    if tail != [] {
      var next := if tail[0] == '0' then current.left else current.right;
      ResumeUnfinished(root, next, tail[1..], acc);
    }
  }

  /**
   * Once the walk stands at an internal node of a tree with an internal
   * root, any bit other than '0' or '1' ahead makes the whole result "".
   */
  lemma {:induction false} ResumeInvalidBit(root: Node, current: Node, bits: string, acc: seq<byte>, k: nat)
    requires root.Internal? && current.Internal?
    requires k < |bits| && !IsBit(bits[k])
    ensures Resume(root, current, bits, acc) == Decoded([])
    decreases |bits|
  {
    if IsBit(bits[0]) {
      var next := if bits[0] == '0' then current.left else current.right;
      if next.Leaf? {
        ResumeInvalidBit(root, root, bits[1..], acc + [next.ch], k - 1);
      } else {
        ResumeInvalidBit(root, next, bits[1..], acc, k - 1);
      }
    }
  }

  /** A null root decodes every stream to "". */
  lemma DecodeNullRoot(bits: string)
    ensures Decode(None, bits) == Decoded([])
  {
  }

  /** With an internal root, a stream holding any bit other than '0' or '1' decodes to "". */
  lemma DecodeInvalidBit(root: Node, bits: string, k: nat)
    requires root.Internal? && k < |bits| && !IsBit(bits[k])
    ensures Decode(Some(root), bits) == Decoded([])
  {
    ResumeInvalidBit(root, root, bits, [], k);
  }

  /**
   * A lone-leaf root has no child to step to: the empty stream decodes to "",
   * an invalid first bit gives "", and a valid first bit reaches the null child.
   */
  lemma DecodeLoneLeaf(c: byte, f: int, bits: string)
    ensures bits == [] ==> Decode(Some(Leaf(c, f)), bits) == Decoded([])
    ensures bits != [] && !IsBit(bits[0]) ==> Decode(Some(Leaf(c, f)), bits) == Decoded([])
    ensures bits != [] && IsBit(bits[0]) ==> Decode(Some(Leaf(c, f)), bits) == NullChild
  {
  }
}
