/**
 * Frequency tables: counting the bytes of a text, and folding the
 * (character, frequency) pairs of a dictionary into a table.
 */
module Frequencies {
  import opened Bytes

  /** The count stored for `b`, or the 0 that `operator[]` default-constructs. */
  function Get(m: map<byte, int>, b: byte): int { if b in m then m[b] else 0 }

  /** Sum of the counts of the keys below `k`. */
  function TotalBelow(m: map<byte, int>, k: nat): int
    requires k <= 256
  {
    if k == 0 then 0 else TotalBelow(m, k - 1) + Get(m, (k - 1) as byte)
  }

  /** Sum of all counts in a frequency table. */
  function Total(m: map<byte, int>): int { TotalBelow(m, 256) }

  lemma {:induction false} TotalBelowEmpty(k: nat)
    requires k <= 256
    ensures TotalBelow(map[], k) == 0
  {
    if k > 0 { TotalBelowEmpty(k - 1); }
  }

  lemma {:induction false} TotalBelowUpdate(m: map<byte, int>, b: byte, v: int, k: nat)
    requires k <= 256
    ensures TotalBelow(m[b := v], k) == TotalBelow(m, k) + (if b < k then v - Get(m, b) else 0)
  {
    if k > 0 { TotalBelowUpdate(m, b, v, k - 1); }
  }

  /** Setting one entry changes the total by the difference of the new and the old count. */
  lemma TotalUpdate(m: map<byte, int>, b: byte, v: int)
    ensures Total(m[b := v]) == Total(m) - Get(m, b) + v
  {
    TotalBelowUpdate(m, b, v, 256);
  }

  /**
   * `calculateFrequencies`: `frequencies[ch]++` for every byte of the text.
   * The keys are exactly the distinct bytes, each count is the number of
   * occurrences, and the counts add up to the length of the text.
   */
  method CalculateFrequencies(text: seq<byte>) returns (freq: map<byte, int>)
    ensures forall b :: b in freq <==> b in text
    ensures forall b :: b in freq ==> freq[b] == multiset(text)[b]
    ensures Total(freq) == |text|
  {
    freq := map[];
    TotalBelowEmpty(256);
    for i := 0 to |text|
      invariant forall b :: b in freq <==> b in text[..i]
      invariant forall b :: b in freq ==> freq[b] == multiset(text[..i])[b]
      invariant Total(freq) == i
    {
      var ch := text[i];
      assert text[..i + 1] == text[..i] + [ch];
      TotalUpdate(freq, ch, Get(freq, ch) + 1);
      freq := freq[ch := Get(freq, ch) + 1];
    }
    assert text[..|text|] == text;
  }

  /** `static_cast<unsigned char>` of an `int`: reduction modulo 256. */
  function CharOf(charac: int): byte { charac % 256 }

  /** No pair after position `i` names the same character as pair `i`. */
  predicate IsLastFor(pairs: seq<(int, int)>, i: int, n: int)
    requires 0 <= i < n <= |pairs|
  {
    forall j :: i < j < n ==> CharOf(pairs[j].0) != CharOf(pairs[i].0)
  }

  /**
   * The loop of `getDictionaryFrequencies` over the pairs already read from
   * the dictionary: `dictionary_frequencies[character] = freq`. The keys
   * are the characters named by some pair, and each one holds the frequency
   * of the LAST pair naming it.
   */
  method DictionaryFrequencies(pairs: seq<(int, int)>) returns (dict: map<byte, int>)
    ensures forall b :: b in dict <==> exists i :: 0 <= i < |pairs| && CharOf(pairs[i].0) == b
    ensures forall i :: 0 <= i < |pairs| && IsLastFor(pairs, i, |pairs|) ==>
      CharOf(pairs[i].0) in dict && dict[CharOf(pairs[i].0)] == pairs[i].1
  {
    dict := map[];
    for k := 0 to |pairs|
      invariant forall b :: b in dict <==> exists i :: 0 <= i < k && CharOf(pairs[i].0) == b
      invariant forall i :: 0 <= i < k && IsLastFor(pairs, i, k) ==>
        CharOf(pairs[i].0) in dict && dict[CharOf(pairs[i].0)] == pairs[i].1
    {
      var character := CharOf(pairs[k].0);
      dict := dict[character := pairs[k].1];
    }
  }
}
