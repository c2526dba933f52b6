/**
 * The compress pipeline of `main`: count the bytes of the buffer, build the
 * tree, derive the code map, and concatenate the code of every byte.
 */
module Compressor {
  import opened Bytes
  import opened Frequencies
  import opened Tree
  import opened CodeTable
  import opened Decoder
  import opened BitFraming

  /** `characters_codes[ch]`: a byte without an entry reads as the empty code. */
  function Lookup(codes: map<byte, string>, ch: byte): string
  {
    if ch in codes then codes[ch] else []
  }

  /** The encoded text: the codes of the bytes of `buffer`, in order. */
  function Encoded(buffer: seq<byte>, codes: map<byte, string>): string
  {
    if buffer == [] then []
    else Encoded(buffer[..|buffer| - 1], codes) + Lookup(codes, buffer[|buffer| - 1])
  }

  /** Sum of the code lengths of the bytes of `buffer`, counted from the front. */
  function CodeLengthSum(buffer: seq<byte>, codes: map<byte, string>): nat
  {
    if buffer == [] then 0 else |Lookup(codes, buffer[0])| + CodeLengthSum(buffer[1..], codes)
  }

  /** The distinct bytes of a buffer. */
  function Alphabet(buffer: seq<byte>): set<byte>
  {
    set b | b in buffer
  }

  /** The encode loop: `encoded_text += characters_codes[ch]` for each byte of the buffer. */
  method EncodeText(buffer: seq<byte>, codes: map<byte, string>) returns (encoded: string)
    ensures encoded == Encoded(buffer, codes)
  {
    encoded := [];
    for i := 0 to |buffer|
      invariant encoded == Encoded(buffer[..i], codes)
    {
      assert buffer[..i + 1][..i] == buffer[..i];
      encoded := encoded + Lookup(codes, buffer[i]);
    }
    assert buffer[..|buffer|] == buffer;
  }

  /** The encoded length is the sum of the code lengths of the input bytes. */
  lemma {:induction false} EncodedLength(buffer: seq<byte>, codes: map<byte, string>)
    ensures |Encoded(buffer, codes)| == CodeLengthSum(buffer, codes)
    decreases |buffer|
  {
    if buffer != [] {
      var init := buffer[..|buffer| - 1];
      EncodedLength(init, codes);
      CodeLengthSumSnoc(init, buffer[|buffer| - 1], codes);
      assert init + [buffer[|buffer| - 1]] == buffer;
    }
  }

  lemma {:induction false} CodeLengthSumSnoc(buffer: seq<byte>, ch: byte, codes: map<byte, string>)
    ensures CodeLengthSum(buffer + [ch], codes) == CodeLengthSum(buffer, codes) + |Lookup(codes, ch)|
    decreases |buffer|
  {
    if buffer == [] {
      assert ([ch])[1..] == [];
    } else {
      assert (buffer + [ch])[1..] == buffer[1..] + [ch];
      CodeLengthSumSnoc(buffer[1..], ch, codes);
    }
  }

  /** Codes made of '0' and '1' concatenate to a bit stream. */
  lemma {:induction false} EncodedIsBits(buffer: seq<byte>, codes: map<byte, string>)
    requires forall c :: c in codes ==> IsBitString(codes[c])
    ensures IsBitString(Encoded(buffer, codes))
    decreases |buffer|
  {
    if buffer != [] {
      EncodedIsBits(buffer[..|buffer| - 1], codes);
    }
  }

  /** With a lone-leaf tree every code is empty, so the encoded text is empty. */
  lemma {:induction false} LoneLeafEncodesEmpty(c: byte, f: int, buffer: seq<byte>)
    requires forall i :: 0 <= i < |buffer| ==> buffer[i] == c
    ensures Encoded(buffer, Codes(Some(Leaf(c, f)))) == []
    decreases |buffer|
  {
    if buffer != [] {
      LoneLeafEncodesEmpty(c, f, buffer[..|buffer| - 1]);
    }
  }

  /**
   * Decoding the codes of `s` from the root of a tree with an internal root
   * emits `s` and leaves the walk at the root for whatever follows.
   */
  lemma {:induction false} ResumeEncoded(root: Node, s: seq<byte>, tail: string, acc: seq<byte>)
    requires root.Internal?
    requires forall i :: 0 <= i < |s| ==> s[i] in LeafChars(root)
    ensures Resume(root, root, Encoded(s, Codes(Some(root))) + tail, acc) == Resume(root, root, tail, acc + s)
    decreases |s|
  {
    var codes := Codes(Some(root));
    if s == [] {
      assert Encoded(s, codes) + tail == tail;
      assert acc + s == acc;
    } else {
      var init, c := s[..|s| - 1], s[|s| - 1];
      var code := codes[c];
      assert Encoded(s, codes) + tail == Encoded(init, codes) + (code + tail);
      ResumeEncoded(root, init, code + tail, acc);
      ResumeCode(root, root, code, tail, acc + init, c);
      assert (acc + init) + [c] == acc + s;
    }
  }

  /** For a tree with at least two leaves, decoding the concatenated codes of `s` gives `s` back. */
  lemma DecodeEncoded(root: Node, s: seq<byte>)
    requires root.Internal?
    requires forall i :: 0 <= i < |s| ==> s[i] in LeafChars(root)
    ensures Decode(Some(root), Encoded(s, Codes(Some(root)))) == Decoded(s)
  {
    var encoded := Encoded(s, Codes(Some(root)));
    assert encoded + [] == encoded;
    ResumeEncoded(root, s, [], []);
  }

  /** Bits after the last complete code that stop inside the tree are dropped. */
  lemma DecodeDropsUnfinished(root: Node, s: seq<byte>, tail: string)
    requires root.Internal?
    requires forall i :: 0 <= i < |s| ==> s[i] in LeafChars(root)
    requires Walk(root, tail).Some? && Walk(root, tail).value.Internal?
    ensures Decode(Some(root), Encoded(s, Codes(Some(root))) + tail) == Decoded(s)
  {
    var encoded := Encoded(s, Codes(Some(root)));
    calc {
      Decode(Some(root), encoded + tail);
      Resume(root, root, encoded + tail, []);
      { ResumeEncoded(root, s, tail, []); assert [] + s == s; }
      Resume(root, root, tail, s);
      { ResumeUnfinished(root, root, tail, s); }
      Decoded(s);
    }
  }

  /**
   * Lines 93-103 of the compress mode: frequencies of the buffer, the tree
   * that `huffmanTree` builds from them (`trace` records its queues), its
   * code map, and the encoded text.
   */
  method Compress(buffer: seq<byte>)
      returns (frequencies: map<byte, int>, root: Option<Node>, ghost trace: seq<seq<Node>>,
               codes: map<byte, string>, encoded: string)
    ensures forall b :: b in frequencies <==> b in buffer
    ensures forall b :: b in frequencies ==> frequencies[b] == multiset(buffer)[b]
    ensures HuffmanRun(frequencies, trace, root)
    ensures root.None? <==> buffer == []
    ensures root.Some? ==> WellFormed(root.value) && LeafChars(root.value) == Alphabet(buffer)
    ensures root.Some? ==> root.value.freq == |buffer|
    ensures codes == Codes(root)
    ensures forall b :: b in buffer ==> b in codes
    ensures encoded == Encoded(buffer, codes)
    ensures IsBitString(encoded)
    ensures |Alphabet(buffer)| == 1 ==> encoded == []
    ensures |Alphabet(buffer)| >= 2 ==> Decode(root, encoded) == Decoded(buffer)
  {
    frequencies := CalculateFrequencies(buffer);
    assert frequencies.Keys == Alphabet(buffer);
    root, trace := BuildHuffmanTree(frequencies);
    codes := Codes(root);
    encoded := EncodeText(buffer, codes);
    CodesAreBitStrings(root);
    EncodedIsBits(buffer, codes);
    if root.Some? {
      var t := root.value;
      assert |frequencies| == |Alphabet(buffer)|;
      if t.Leaf? {
        assert forall i :: 0 <= i < |buffer| ==> buffer[i] == t.ch by {
          forall i | 0 <= i < |buffer| ensures buffer[i] == t.ch {
            assert buffer[i] in LeafChars(t);
          }
        }
        LoneLeafEncodesEmpty(t.ch, t.freq, buffer);
      } else {
        DecodeEncoded(t, buffer);
      }
    }
  }

  /**
   * Compress then the bit framing: unpacking the packed encoded text with
   * its length as the count and decoding gives the buffer back, for a tree
   * with at least two leaves.
   */
  lemma PackedRoundTrip(root: Node, buffer: seq<byte>)
    requires root.Internal?
    requires forall i :: 0 <= i < |buffer| ==> buffer[i] in LeafChars(root)
    ensures Decode(Some(root), Unpacked(Pack(Encoded(buffer, Codes(Some(root)))), |Encoded(buffer, Codes(Some(root)))|))
      == Decoded(buffer)
  {
    var codes := Codes(Some(root));
    CodesAreBitStrings(Some(root));
    EncodedIsBits(buffer, codes);
    UnpackPack(Encoded(buffer, codes));
    DecodeEncoded(root, buffer);
  }
}
