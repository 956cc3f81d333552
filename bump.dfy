/**
 The arithmetic of successive bump allocations: a run of `arena_alloc` calls of
 sizes `ns[0], ns[1], ...` starting from cursor `start` returns the offsets
 Offsets(start, ns) and leaves the cursor at `start + Sum(ns)`.
 */
module Bump {

  /** Total number of bytes requested by a run of allocations. */
  function Sum(ns: seq<nat>): nat
  {
    if ns == [] then 0 else Sum(ns[..|ns| - 1]) + ns[|ns| - 1]
  }

  /** The offsets returned by allocations of sizes `ns`, in order, from cursor `start`:
      each allocation starts where the ones before it ended. */
  function Offsets(start: nat, ns: seq<nat>): (r: seq<nat>)
    ensures |r| == |ns|
  {
    if ns == [] then [] else Offsets(start, ns[..|ns| - 1]) + [start + Sum(ns[..|ns| - 1])]
  }

  /** Appending one allocation to a run. */
  lemma SumSnoc(start: nat, ns: seq<nat>, n: nat)
    ensures Sum(ns + [n]) == Sum(ns) + n
    ensures Offsets(start, ns + [n]) == Offsets(start, ns) + [start + Sum(ns)]
  {
    assert (ns + [n])[..|ns|] == ns;
  }

  lemma {:induction false} SumPrefixMonotone(ns: seq<nat>, i: nat, j: nat)
    requires i <= j <= |ns|
    ensures Sum(ns[..i]) <= Sum(ns[..j])
  {
    if i < j {
      SumPrefixMonotone(ns, i, j - 1);
      assert ns[..j][..j - 1] == ns[..j - 1];
    }
  }

  /** The `i`-th allocation starts after all bytes requested before it. */
  lemma {:induction false} OffsetsAt(start: nat, ns: seq<nat>, i: nat)
    requires i < |ns|
    ensures Offsets(start, ns)[i] == start + Sum(ns[..i])
  {
    var init := ns[..|ns| - 1];
    if i < |ns| - 1 {
      OffsetsAt(start, init, i);
      assert init[..i] == ns[..i];
    } else {
      assert init == ns[..i];
    }
  }

  /** Consecutive allocations are adjacent: each one ends where the next begins,
      and the last one ends at the final cursor. */
  lemma {:induction false} OffsetsAdjacent(start: nat, ns: seq<nat>, i: nat)
    requires i < |ns|
    ensures Offsets(start, ns)[i] + ns[i] ==
            if i + 1 < |ns| then Offsets(start, ns)[i + 1] else start + Sum(ns)
  {
    OffsetsAt(start, ns, i);
    assert ns[..i + 1][..i] == ns[..i];
    if i + 1 < |ns| {
      OffsetsAt(start, ns, i + 1);
    } else {
      assert ns[..i + 1] == ns;
    }
  }

  /** Distinct allocations of a run occupy disjoint regions, in increasing order,
      and all of them lie below the final cursor. */
  lemma {:induction false} OffsetsDisjoint(start: nat, ns: seq<nat>, i: nat, j: nat)
    requires i < j < |ns|
    ensures Offsets(start, ns)[i] + ns[i] <= Offsets(start, ns)[j]
    ensures Offsets(start, ns)[j] + ns[j] <= start + Sum(ns)
  {
    OffsetsAt(start, ns, i);
    OffsetsAt(start, ns, j);
    OffsetsAdjacent(start, ns, i);
    OffsetsAdjacent(start, ns, j);
    assert ns[..i + 1][..i] == ns[..i];
    SumPrefixMonotone(ns, i + 1, j);
    assert ns[..j + 1][..j] == ns[..j];
    assert ns[..|ns|] == ns;
    SumPrefixMonotone(ns, j + 1, |ns|);
  }
}
