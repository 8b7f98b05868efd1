/**
 * The registry of expiring keys is an unordered slice of keys. A slot is
 * removed by overwriting it with the last slot and truncating the slice by
 * one, which costs O(1) and does not preserve order.
 */
module Registry {

  /** The registry after removing slot `index` by swap-with-last-then-truncate. */
  function SwapTruncate(keys: seq<string>, index: nat): (r: seq<string>)
    requires index < |keys|
    ensures |r| == |keys| - 1
    ensures multiset(r) == multiset(keys) - multiset{keys[index]}
  {
    var n := |keys|;
    var r := keys[index := keys[n - 1]][..n - 1];
    SwapTruncateCounts(keys, index, r);
    r
  }

  /** Counting argument behind `SwapTruncate`: each key's number of
      occurrences drops by one for the removed key and is otherwise kept. */
  lemma SwapTruncateCounts(keys: seq<string>, index: nat, r: seq<string>)
    requires index < |keys|
    requires r == keys[index := keys[|keys| - 1]][..|keys| - 1]
    ensures multiset(r) == multiset(keys) - multiset{keys[index]}
  {
    var n := |keys|;
    var last := keys[n - 1];
    assert keys == keys[..n - 1] + [last];
    if index < n - 1 {
      assert r == keys[..n - 1][index := last];
    }
    forall x ensures multiset(r)[x] == (multiset(keys) - multiset{keys[index]})[x] {
      assert multiset(keys)[x] == multiset(keys[..n - 1])[x] + (if x == last then 1 else 0);
    }
  }

  /** Slot by slot: the removed slot now holds the former last key, every
      other surviving slot is unchanged. */
  lemma SwapTruncateSlots(keys: seq<string>, index: nat, j: nat)
    requires index < |keys| && j < |keys| - 1
    ensures SwapTruncate(keys, index)[j] == if j == index then keys[|keys| - 1] else keys[j]
  {
  }

  /** A key that occurs in the registry and is not the removed one is still
      there afterwards, so removal never loses any other key. */
  lemma OtherKeysSurvive(keys: seq<string>, index: nat, k: string)
    requires index < |keys|
    requires k in keys && k != keys[index]
    ensures k in SwapTruncate(keys, index)
  {
    assert k in multiset(keys);
    assert k in multiset(SwapTruncate(keys, index));
  }
}
