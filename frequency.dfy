/**
 * `build_frequency_table`: one pass over the input that counts how often
 * each byte value occurs, in a dictionary that starts empty.
 */
module Frequency {
  import opened BitStrings

  /** Byte value to occurrence count. */
  type FrequencyTable = map<Byte, nat>

  /** The table holds exactly the byte values of `data`, each with its number of occurrences. */
  ghost predicate CountsOf(freq: FrequencyTable, data: seq<Byte>) {
    && (forall b :: b in freq <==> b in data)
    && (forall b :: b in freq ==> freq[b] == multiset(data)[b])
  }

  /** The count of `b`, zero when absent (the `defaultdict(int)` default). */
  function CountOf(freq: FrequencyTable, b: Byte): nat {
    if b in freq then freq[b] else 0
  }

  /** The table after one more occurrence of `b`: `freq[b] += 1`. */
  function Bump(freq: FrequencyTable, b: Byte): FrequencyTable {
    freq[b := CountOf(freq, b) + 1]
  }

  /** The sum of the counts of the byte values below `k`. */
  function SumBelow(freq: FrequencyTable, k: nat): nat
    requires k <= 256
  {
    if k == 0 then 0 else SumBelow(freq, k - 1) + CountOf(freq, k - 1)
  }

  /** The sum of all counts in the table. */
  function Total(freq: FrequencyTable): nat {
    SumBelow(freq, 256)
  }

  method BuildFrequencyTable(data: seq<Byte>) returns (freq: FrequencyTable)
    ensures CountsOf(freq, data)
  {
    freq := map[];
    for i := 0 to |data|
      invariant CountsOf(freq, data[..i])
    {
      var b := data[i];
      assert data[..i + 1] == data[..i] + [b];
      BumpCounts(freq, data[..i], b);
      freq := freq[b := CountOf(freq, b) + 1];
    }
    assert data[..|data|] == data;
  }

  /** One more occurrence of `b` in the data is one more count of `b` in the table. */
  lemma BumpCounts(freq: FrequencyTable, data: seq<Byte>, b: Byte)
    requires CountsOf(freq, data)
    ensures CountsOf(Bump(freq, b), data + [b])
  {
    assert multiset(data + [b]) == multiset(data) + multiset{b};
  }

  /** A table that counts `data` is determined by `data`. */
  lemma CountsUnique(f1: FrequencyTable, f2: FrequencyTable, data: seq<Byte>)
    requires CountsOf(f1, data) && CountsOf(f2, data)
    ensures f1 == f2
  {
  }

  /** Incrementing the count of one byte value raises every sum that covers it by one. */
  lemma {:induction false} SumBelowBump(freq: FrequencyTable, b: Byte, k: nat)
    requires k <= 256
    ensures SumBelow(Bump(freq, b), k) == SumBelow(freq, k) + (if b < k then 1 else 0)
  {
    if k > 0 {
      SumBelowBump(freq, b, k - 1);
    }
  }

  /** Every table that counts `data` has counts summing to `|data|`. */
  lemma {:induction false} CountsSumToLength(freq: FrequencyTable, data: seq<Byte>)
    requires CountsOf(freq, data)
    ensures Total(freq) == |data|
  {
    if data == [] {
      assert freq == map[];
      EmptyTotal(256);
    } else {
      var init := data[..|data| - 1];
      var b := data[|data| - 1];
      assert data == init + [b];
      var prev: FrequencyTable := map x | x in init :: multiset(init)[x];
      CountsSumToLength(prev, init);
      SumBelowBump(prev, b, 256);
      BumpCounts(prev, init, b);
      CountsUnique(freq, Bump(prev, b), data);
    }
  }

  lemma {:induction false} EmptyTotal(k: nat)
    requires k <= 256
    ensures SumBelow(map[], k) == 0
  {
    if k > 0 {
      EmptyTotal(k - 1);
    }
  }
}
