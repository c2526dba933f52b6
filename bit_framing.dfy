/**
 * Bit framing: packing a textual bit stream into bytes, most significant
 * bit first with the last byte zero-padded on the low side, and unpacking
 * a bounded number of bits from packed bytes.
 */
module BitFraming {
  import opened Bytes

  function Pow2(n: nat): (r: nat)
    ensures r >= 1
  {
    if n == 0 then 1 else 2 * Pow2(n - 1)
  }

  /** `x << n`, as `n` doublings. */
  function ShiftLeft(x: int, n: nat): int
  {
    if n == 0 then x else 2 * ShiftLeft(x, n - 1)
  }

  /** `bit - '0'` for a character of a bit stream. */
  function BitValue(c: char): nat { if c == '1' then 1 else 0 }

  /** The number a bit string spells, most significant bit first. */
  function Val(s: string): (r: nat)
    ensures r < Pow2(|s|)
  {
    if s == [] then 0 else Val(s[..|s| - 1]) * 2 + BitValue(s[|s| - 1])
  }

  /** Bit `j` of `x`, counting from the least significant: `(x & (1 << j)) != 0`. */
  function BitAt(x: nat, j: nat): (r: nat)
    ensures r <= 1
  {
    if j == 0 then x % 2 else BitAt(x / 2, j - 1)
  }

  function Zeros(n: nat): string { seq(n, _ => '0') }

  /**
   * The packed bytes of a bit stream: each group of eight bits read as a
   * number, most significant bit first; a final group of fewer than eight
   * bits is first padded with zeros.
   */
  function Pack(bits: string): (r: seq<byte>)
    ensures |r| == (|bits| + 7) / 8
    decreases |bits|
  {
    if |bits| == 0 then []
    else if |bits| < 8 then [Val(bits + Zeros(8 - |bits|))]
    else [Val(bits[..8])] + Pack(bits[8..])
  }

  /** The 4-byte tag "HUFF" written before the packed bits. */
  const Magic: seq<byte> := [72, 85, 70, 70]

  /**
   * The packing loop of `WriteCompressedFile`: after the tag, shift each bit
   * into `buffer`, flush every eight bits, and shift a last partial byte up
   * to the byte boundary. By `Pack`'s contract the output is the tag, then
   * ceil(n/8) bytes.
   */
  method WriteCompressed(bitstream: string) returns (file: seq<byte>)
    requires IsBitString(bitstream)
    ensures file == Magic + Pack(bitstream)
  {
    file := Magic;
    var buffer := 0;
    var bitCount := 0;
    ghost var groups := 0;
    for i := 0 to |bitstream|
      invariant 0 <= groups && 0 <= bitCount < 8 && 8 * groups + bitCount == i
      invariant file == Magic + Pack(bitstream[..8 * groups])
      invariant buffer == Val(bitstream[8 * groups..i])
    {
      var bit := bitstream[i];
      ShiftIn(bitstream, 8 * groups, i, buffer);
      buffer := buffer * 2 + ((bit as int) - ('0' as int));
      bitCount := bitCount + 1;
      if bitCount == 8 {
        FlushGroup(bitstream, groups, file, buffer);
        file := file + [buffer];
        buffer := 0;
        bitCount := 0;
        groups := groups + 1;
      }
    }
    if bitCount > 0 {
      FlushLast(bitstream, groups, bitCount, file, buffer);
      buffer := ShiftLeft(buffer, 8 - bitCount);
      file := file + [buffer];
    } else {
      assert bitstream[..8 * groups] == bitstream;
    }
  }

  /** Flushing the `q+1`-th full group of eight bits appends its byte to the file. */
  lemma FlushGroup(bits: string, q: nat, file: seq<byte>, buffer: int)
    requires 8 * q + 8 <= |bits|
    requires file == Magic + Pack(bits[..8 * q])
    requires buffer == Val(bits[8 * q..8 * q + 8])
    ensures 0 <= buffer < 256
    ensures file + [buffer] == Magic + Pack(bits[..8 * q + 8])
  {
    assert |bits[8 * q..8 * q + 8]| == 8;
    assert Pow2(8) == 256;
    FullGroup(bits, q + 1);
    SnocAssoc(Magic, Pack(bits[..8 * q]), buffer);
  }

  /**
   * After `q` full groups, a partial group of `r` bits held in `buffer`,
   * shifted up to the byte boundary, is the last byte of the file.
   */
  lemma FlushLast(bits: string, q: nat, r: nat, file: seq<byte>, buffer: int)
    requires 0 < r < 8 && 8 * q + r == |bits|
    requires file == Magic + Pack(bits[..8 * q])
    requires buffer == Val(bits[8 * q..|bits|])
    ensures 0 <= ShiftLeft(buffer, 8 - r) < 256
    ensures file + [ShiftLeft(buffer, 8 - r)] == Magic + Pack(bits)
  {
    var group := bits[8 * q..];
    assert bits[8 * q..|bits|] == group;
    PaddedByte(group, buffer);
    assert bits == bits[..8 * q] + group;
    LastGroup(bits[..8 * q], group, q);
    SnocAssoc(Magic, Pack(bits[..8 * q]), ShiftLeft(buffer, 8 - r));
  }

  /** A partial group shifted up to the byte boundary is its zero-padded value, a byte. */
  lemma PaddedByte(group: string, buffer: int)
    requires 0 < |group| < 8 && buffer == Val(group)
    ensures ShiftLeft(buffer, 8 - |group|) == Val(group + Zeros(8 - |group|))
    ensures 0 <= ShiftLeft(buffer, 8 - |group|) < 256
  {
    ValPadded(group, 8 - |group|);
    assert |group + Zeros(8 - |group|)| == 8;
    assert Pow2(8) == 256;
  }

  lemma SnocAssoc<T>(a: seq<T>, b: seq<T>, x: T)
    ensures (a + b) + [x] == a + (b + [x])
  {
  }

  /** Shifting bit `i` into a buffer holding bits `start..i` gives the value of bits `start..i+1`. */
  lemma ShiftIn(bits: string, start: nat, i: nat, buffer: int)
    requires start <= i < |bits| && IsBitString(bits)
    requires buffer == Val(bits[start..i])
    ensures buffer * 2 + ((bits[i] as int) - ('0' as int)) == Val(bits[start..i + 1])
  {
    assert IsBit(bits[i]);
    assert bits[start..i + 1] == bits[start..i] + [bits[i]];
    ValSnoc(bits[start..i], bits[i]);
  }

  /** The `q`-th completed group of eight bits becomes one more packed byte. */
  lemma FullGroup(bits: string, q: nat)
    requires 1 <= q && 8 * q <= |bits|
    ensures Pack(bits[..8 * q]) == Pack(bits[..8 * (q - 1)]) + [Val(bits[8 * (q - 1)..8 * q])]
  {
    var group := bits[8 * (q - 1)..8 * q];
    assert bits[..8 * q] == bits[..8 * (q - 1)] + group;
    PackConcat(bits[..8 * (q - 1)], group, q - 1);
    assert group[..8] == group && group[8..] == [];
  }

  /** A last group of fewer than eight bits after whole bytes becomes one byte, padded with zeros. */
  lemma LastGroup(x: string, group: string, q: nat)
    requires |x| == 8 * q && 0 < |group| < 8
    ensures Pack(x + group) == Pack(x) + [Val(group + Zeros(8 - |group|))]
  {
    PackConcat(x, group, q);
    PackShort(group);
  }

  /** Fewer than eight bits pack into one zero-padded byte. */
  lemma PackShort(group: string)
    requires 0 < |group| < 8
    ensures Pack(group) == [Val(group + Zeros(8 - |group|))]
  {
  }

  lemma ValSnoc(s: string, c: char)
    ensures Val(s + [c]) == Val(s) * 2 + BitValue(c)
  {
    assert (s + [c])[..|s|] == s;
  }

  /** Splitting a bit stream after `q` whole bytes splits its packing there. */
  lemma {:induction false} PackConcat(x: string, y: string, q: nat)
    requires |x| == 8 * q
    ensures Pack(x + y) == Pack(x) + Pack(y)
  {
    if q == 0 {
      assert x + y == y;
    } else {
      assert (x + y)[..8] == x[..8];
      assert (x + y)[8..] == x[8..] + y;
      PackConcat(x[8..], y, q - 1);
    }
  }

  /** Appending `n` zero bits shifts the value left by `n`: the `buffer <<= (8 - bitCount)`. */
  lemma {:induction false} ValPadded(s: string, n: nat)
    ensures Val(s + Zeros(n)) == ShiftLeft(Val(s), n)
  {
    if n == 0 {
      assert s + Zeros(n) == s;
    } else {
      var t := s + Zeros(n);
      assert t[..|t| - 1] == s + Zeros(n - 1);
      ValPadded(s, n - 1);
    }
  }

  /** Bit k of a bit string, counted from the left, is bit |s| - 1 - k of its value. */
  lemma {:induction false} ValBits(s: string, k: nat)
    requires k < |s|
    ensures BitAt(Val(s), |s| - 1 - k) == BitValue(s[k])
  {
    var init := s[..|s| - 1];
    var v := Val(s);
    assert v == Val(init) * 2 + BitValue(s[|s| - 1]);
    if k < |s| - 1 {
      ValBits(init, k);
      assert v / 2 == Val(init);
    }
  }

  /** MSB first: bit 8q + r of the stream is bit 7 - r of byte q. */
  lemma {:induction false} PackMsbFirst(bits: string, q: nat, r: nat)
    requires r < 8 && 8 * q + r < |bits|
    ensures BitAt(Pack(bits)[q], 7 - r) == BitValue(bits[8 * q + r])
    decreases q
  {
    if |bits| < 8 {
      ValBits(bits + Zeros(8 - |bits|), r);
    } else if q == 0 {
      ValBits(bits[..8], r);
    } else {
      PackMsbFirst(bits[8..], q - 1, r);
      assert bits[8..][8 * (q - 1) + r] == bits[8 * q + r];
    }
  }

  /** The low bits of the last byte, past the end of the stream, are zero. */
  lemma {:induction false} PackPadding(bits: string, q: nat, r: nat)
    requires r < 8 && |bits| <= 8 * q + r && q < |Pack(bits)|
    ensures BitAt(Pack(bits)[q], 7 - r) == 0
    decreases q
  {
    if |bits| >= 8 {
      PackPadding(bits[8..], q - 1, r);
    } else {
      ValBits(bits + Zeros(8 - |bits|), r);
    }
  }

  /** The character `readCompressed` pushes for a bit: '1' when set. */
  function BitChar(v: nat): char { if v == 1 then '1' else '0' }

  /** The eight bits of a byte as characters, from bit 7 down to bit 0. */
  function ByteBits(b: byte): string
  {
    seq(8, k requires 0 <= k < 8 => BitChar(BitAt(b, 7 - k)))
  }

  /** All bits of a sequence of bytes, each byte most significant bit first. */
  function Expand(bytes: seq<byte>): (r: string)
    ensures |r| == 8 * |bytes|
  {
    if bytes == [] then [] else Expand(bytes[..|bytes| - 1]) + ByteBits(bytes[|bytes| - 1])
  }

  /** Bit 8q + r of the expansion is bit 7 - r of byte q. */
  lemma {:induction false} ExpandAt(bytes: seq<byte>, q: nat, r: nat)
    requires r < 8 && q < |bytes|
    ensures Expand(bytes)[8 * q + r] == BitChar(BitAt(bytes[q], 7 - r))
  {
    var n := |bytes|;
    var init := bytes[..n - 1];
    if q < n - 1 {
      ExpandAt(init, q, r);
    } else {
      assert Expand(bytes)[8 * q + r] == ByteBits(bytes[n - 1])[r];
    }
  }

  /** What the unpacking loop leaves in `bitStream`: the first min(count, 8k) bits of k bytes. */
  function Unpacked(bytes: seq<byte>, bitCount: nat): string
  {
    Expand(bytes)[..Min(bitCount, 8 * |bytes|)]
  }

  /**
   * The unpacking loop of `readCompressed` over the bytes after the header:
   * push each byte's bits from bit 7 down to bit 0 while fewer than
   * `bitCount` bits have been recovered.
   */
  method ReadCompressed(bytes: seq<byte>, bitCount: uint32) returns (bitStream: string)
    ensures bitStream == Unpacked(bytes, bitCount)
  {
    bitStream := [];
    for j := 0 to |bytes|
      invariant |bitStream| == Min(bitCount, 8 * j)
      invariant bitStream == Expand(bytes[..j])[..|bitStream|]
    {
      var byte := bytes[j];
      ghost var expanded := Expand(bytes[..j]) + ByteBits(byte);
      assert Expand(bytes[..j + 1]) == expanded by {
        assert bytes[..j + 1][..j] == bytes[..j];
      }
      var i := 7;
      while i >= 0
        invariant -1 <= i <= 7
        invariant |bitStream| == Min(bitCount, 8 * j + 7 - i)
        invariant bitStream == expanded[..|bitStream|]
        decreases i + 1
      {
        if |bitStream| < bitCount {
          assert expanded[..|bitStream| + 1] == bitStream + [if BitAt(byte, i) == 1 then '1' else '0'] by {
            PushBit(Expand(bytes[..j]), byte, 7 - i);
          }
          bitStream := bitStream + [if BitAt(byte, i) == 1 then '1' else '0'];
        } else {
          break;
        }
        i := i - 1;
      }
    }
    assert bytes[..|bytes|] == bytes;
  }

  /** The next bit of a byte's expansion after a prefix of whole bytes. */
  lemma PushBit(prefix: string, b: byte, k: nat)
    requires k < 8
    ensures (prefix + ByteBits(b))[..|prefix| + k + 1]
      == (prefix + ByteBits(b))[..|prefix| + k] + [BitChar(BitAt(b, 7 - k))]
  {
  }

  /**
   * Unpacking yields exactly min(count, 8k) bits, each '0' or '1', bit i
   * being bit 7 - i mod 8 of byte i / 8.
   */
  lemma UnpackedFacts(bytes: seq<byte>, bitCount: nat)
    ensures |Unpacked(bytes, bitCount)| == Min(bitCount, 8 * |bytes|)
    ensures IsBitString(Unpacked(bytes, bitCount))
    ensures forall i :: 0 <= i < |Unpacked(bytes, bitCount)| ==>
      Unpacked(bytes, bitCount)[i] == BitChar(BitAt(bytes[i / 8], 7 - i % 8))
  {
    forall i | 0 <= i < |Unpacked(bytes, bitCount)|
      ensures Unpacked(bytes, bitCount)[i] == BitChar(BitAt(bytes[i / 8], 7 - i % 8))
    {
      assert 8 * (i / 8) + i % 8 == i;
      ExpandAt(bytes, i / 8, i % 8);
    }
  }

  /** Bit 8q + r of a bit stream survives packing and expanding. */
  lemma PackedBit(bits: string, q: nat, r: nat)
    requires IsBitString(bits)
    requires r < 8 && 8 * q + r < |bits|
    ensures Expand(Pack(bits))[8 * q + r] == bits[8 * q + r]
  {
    ExpandAt(Pack(bits), q, r);
    PackMsbFirst(bits, q, r);
  }

  /** Unpacking the packed bytes of a bit stream with its length as the count gives the stream back. */
  lemma UnpackPack(bits: string)
    requires IsBitString(bits)
    ensures Unpacked(Pack(bits), |bits|) == bits
  {
    var packed := Pack(bits);
    var out := Unpacked(packed, |bits|);
    assert |out| == |bits| by {
      assert Min(|bits|, 8 * |packed|) == |bits|;
    }
    forall i | 0 <= i < |bits| ensures out[i] == bits[i] {
      var q, r := i / 8, i % 8;
      assert 8 * q + r == i;
      assert out[i] == Expand(packed)[8 * q + r];
      PackedBit(bits, q, r);
    }
  }
}
