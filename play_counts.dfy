/**
 * The play-count dictionary: day key -> number of plays that day.  An absent
 * key reads as 0 (`playCounts[key] || 0`).  These are the functions that
 * specify the panel's in-place updates and the scrobble tally.
 */
module PlayCounts {

  type Counts = map<string, nat>

  /** `counts[key] || 0`. */
  function CountFor(counts: Counts, key: string): nat {
    if key in counts then counts[key] else 0
  }

  /** `counts[key] = (counts[key] || 0) + amount`, as a new value. */
  function AddAt(counts: Counts, key: string, amount: nat): (r: Counts)
    ensures r.Keys == counts.Keys + {key}
    ensures CountFor(r, key) == CountFor(counts, key) + amount
    ensures forall k :: k != key ==> CountFor(r, k) == CountFor(counts, k)
  {
    counts[key := CountFor(counts, key) + amount]
  }

  /** One more play on `key`; every other key is untouched. */
  function Incremented(counts: Counts, key: string): (r: Counts)
    ensures r.Keys == counts.Keys + {key}
    ensures CountFor(r, key) == CountFor(counts, key) + 1
    ensures forall k :: k != key ==> CountFor(r, k) == CountFor(counts, k)
  {
    AddAt(counts, key, 1)
  }

  /** Additive merge of fetched counts into stored counts: nothing is overwritten. */
  function Merged(counts: Counts, fetched: Counts): (r: Counts)
    ensures r.Keys == counts.Keys + fetched.Keys
    ensures forall k :: CountFor(r, k) == CountFor(counts, k) + CountFor(fetched, k)
  {
    map k | k in counts.Keys + fetched.Keys :: CountFor(counts, k) + CountFor(fetched, k)
  }

  /** Total number of plays recorded in `counts`. */
  ghost function Total(counts: Counts): nat {
    if counts == map[] then 0
    else
      var k := PickKey(counts);
      counts[k] + Total(counts - {k})
  }

  ghost function PickKey(counts: Counts): (k: string)
    requires counts != map[]
    ensures k in counts
  {
    var k :| k in counts; k
  }

  // ------------------------------------------------------------------ lemmas

  /** The total can be split off at any key, whichever key `Total` happens to choose. */
  lemma {:induction false} TotalWithout(counts: Counts, key: string)
    requires key in counts
    ensures Total(counts) == counts[key] + Total(counts - {key})
    decreases |counts|
  {
    var k := PickKey(counts);
    if k != key {
      assert counts - {k} - {key} == counts - {key} - {k};
      TotalWithout(counts - {k}, key);
      TotalWithout(counts - {key}, k);
    }
  }

  /** Adding `amount` plays on one key raises the total by exactly `amount`. */
  lemma {:induction false} TotalAddAt(counts: Counts, key: string, amount: nat)
    ensures Total(AddAt(counts, key, amount)) == Total(counts) + amount
  {
    var r := AddAt(counts, key, amount);
    TotalWithout(r, key);
    assert r - {key} == counts - {key};
    if key in counts {
      TotalWithout(counts, key);
    } else {
      assert counts - {key} == counts;
    }
  }

  /** A local play adds exactly one to the total. */
  lemma {:induction false} TotalIncremented(counts: Counts, key: string)
    ensures Total(Incremented(counts, key)) == Total(counts) + 1
  {
    TotalAddAt(counts, key, 1);
  }

  /** Merging a map is merging it without one key, then adding that key's count. */
  lemma MergedPeel(counts: Counts, fetched: Counts, key: string)
    requires key in fetched
    ensures Merged(counts, fetched) == AddAt(Merged(counts, fetched - {key}), key, fetched[key])
  {
    var lhs, rhs := Merged(counts, fetched), AddAt(Merged(counts, fetched - {key}), key, fetched[key]);
    assert lhs.Keys == rhs.Keys;
    forall k | k in lhs
      ensures lhs[k] == rhs[k]
    {
      assert lhs[k] == CountFor(lhs, k) && rhs[k] == CountFor(rhs, k);
    }
  }

  /** Merging adds exactly the fetched total: no play is lost or invented. */
  lemma {:induction false} TotalMerged(counts: Counts, fetched: Counts)
    ensures Total(Merged(counts, fetched)) == Total(counts) + Total(fetched)
    decreases |fetched|
  {
    if fetched == map[] {
      assert Merged(counts, fetched) == counts;
    } else {
      var k := PickKey(fetched);
      var rest := fetched - {k};
      TotalWithout(fetched, k);
      TotalMerged(counts, rest);
      MergedPeel(counts, fetched, k);
      TotalAddAt(Merged(counts, rest), k, fetched[k]);
    }
  }

  /** Merging two fetch results one after the other is the same as merging their sum. */
  lemma {:induction false} MergeSequential(counts: Counts, first: Counts, second: Counts)
    ensures Merged(Merged(counts, first), second) == Merged(counts, Merged(first, second))
  {
    var lhs, rhs := Merged(Merged(counts, first), second), Merged(counts, Merged(first, second));
    assert forall k :: CountFor(lhs, k) == CountFor(rhs, k);
    assert forall k :: k in lhs ==> lhs[k] == CountFor(lhs, k);
    assert forall k :: k in rhs ==> rhs[k] == CountFor(rhs, k);
  }

  /** The order in which two fetch results arrive does not matter. */
  lemma {:induction false} MergeCommutes(counts: Counts, first: Counts, second: Counts)
    ensures Merged(Merged(counts, first), second) == Merged(Merged(counts, second), first)
  {
    var lhs, rhs := Merged(Merged(counts, first), second), Merged(Merged(counts, second), first);
    assert forall k :: k in lhs ==> lhs[k] == CountFor(lhs, k);
    assert forall k :: k in rhs ==> rhs[k] == CountFor(rhs, k);
  }

  /** Merging {A:2} and then {A:3} raises A by 5; merging the same result twice counts it twice. */
  lemma MergeTwiceAdds(counts: Counts, key: string)
    ensures CountFor(Merged(Merged(counts, map[key := 2]), map[key := 3]), key) == CountFor(counts, key) + 5
    ensures forall fetched: Counts ::
      CountFor(Merged(Merged(counts, fetched), fetched), key) == CountFor(counts, key) + 2 * CountFor(fetched, key)
  {
  }

  /** Merging never lowers a count and leaves keys it was not given alone. */
  lemma MergeMonotone(counts: Counts, fetched: Counts)
    ensures forall k :: CountFor(Merged(counts, fetched), k) >= CountFor(counts, k)
    ensures forall k :: k !in fetched ==> CountFor(Merged(counts, fetched), k) == CountFor(counts, k)
    ensures forall k :: k in counts ==> k in Merged(counts, fetched) && Merged(counts, fetched)[k] >= counts[k]
  {
  }
}
