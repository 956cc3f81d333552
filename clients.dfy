/**
 Callers of the arena: what a program using `arena.h` can conclude from the
 contracts of the Arena methods alone.
 */
module ArenaClients {
  import opened ByteCopy
  import opened Bump
  import opened Arenas

  /** A run of `arena_alloc` calls of sizes `ns`: the offsets returned are those of
      Bump.Offsets (adjacent, disjoint, increasing) and the cursor ends `Sum(ns)` higher. */
  method AllocRun(a: Arena, ns: seq<nat>) returns (offsets: seq<nat>)
    requires a.Valid()
    requires a.size + Sum(ns) <= MAX_CAP
    modifies a
    ensures offsets == Offsets(old(a.size), ns)
    ensures a.size == old(a.size) + Sum(ns)
    ensures a.memory[..] == old(a.memory[..])
  {
    offsets := [];
    var i := 0;
    while i < |ns|
      invariant 0 <= i <= |ns|
      invariant offsets == Offsets(old(a.size), ns[..i])
      invariant a.size == old(a.size) + Sum(ns[..i])
      invariant a.memory[..] == old(a.memory[..])
    {
      SumSnoc(old(a.size), ns[..i], ns[i]);
      assert ns[..i + 1] == ns[..i] + [ns[i]];
      SumPrefixMonotone(ns, i + 1, |ns|);
      assert ns[..|ns|] == ns;
      var p := a.Alloc(ns[i]);
      offsets := offsets + [p];
      i := i + 1;
    }
    assert ns[..i] == ns;
  }

  /** `m = arena_snapshot(a); arena_alloc(a, k); arena_rewind(a, m)` puts the cursor
      back where it was and leaves the buffer as it was. */
  method SnapshotAllocRewind(a: Arena, k: nat)
    requires a.Valid() && a.Fits(k)
    modifies a
    ensures a.size == old(a.size)
    ensures a.memory[..] == old(a.memory[..])
  {
    var mark := a.Snapshot();
    var p := a.Alloc(k);
    a.Rewind(mark);
  }

  /** Resetting twice leaves the arena as resetting once does. */
  method ResetTwice(a: Arena)
    modifies a
    ensures a.size == 0
    ensures a.memory[..] == old(a.memory[..])
  {
    a.Reset();
    ghost var once := (a.size, a.memory[..]);
    a.Reset();
    assert (a.size, a.memory[..]) == once;
  }

  /** Cloning and then growing a region in the source arena leaves the clone's bytes
      as they were copied. */
  method CloneIsIndependent(a: Arena, extraCap: nat, mallocOk: bool, oldPtr: nat, oldSize: nat, newSize: nat)
    returns (clone: Arena?)
    requires a.Valid() && a.size <= a.memory.Length
    requires newSize > oldSize ==> a.Fits(newSize) && oldPtr + oldSize <= a.memory.Length
    modifies a, a.memory
    ensures clone != null ==>
      clone.memory != a.memory && clone.size == old(a.size) && clone.size <= clone.memory.Length &&
      clone.Live() == old(a.Live())
  {
    clone := a.HeapClone(extraCap, mallocOk);
    var p := a.Realloc(oldPtr, oldSize, newSize);
  }

  /** A heap arena of capacity 64: allocate 10, snapshot, allocate 20, rewind, allocate 60.
      Because `arena_alloc` checks against MAX_CAP rather than the arena's capacity, the
      last allocation is accepted and the cursor passes 64. */
  method CapacityScenario(mallocOk: bool) returns (a: Arena?)
    ensures mallocOk <==> a != null
    ensures a != null ==> a.maxCapacity == 64 && a.size == 70 && a.size > a.maxCapacity
  {
    a := HeapArena(HeapArenaOpts(64), mallocOk);
    if a == null {
      return;
    }
    var p := a.Alloc(10);
    assert p == 0;
    var mark := a.Snapshot();
    assert mark == 10;
    p := a.Alloc(20);
    assert a.size == 30;
    a.Rewind(mark);
    assert a.size == 10;
    p := a.Alloc(60);
  }

  /** `heap_arena()` with no options: the capacity defaults to MAX_CAP, the same as a
      default arena's. */
  method HeapArenaWithDefaults(mallocOk: bool) returns (a: Arena?)
    ensures mallocOk <==> a != null
    ensures a != null ==> a.size == 0 && a.maxCapacity == MAX_CAP && a.memory.Length == 2 * MAX_CAP
  {
    a := HeapArena(DEFAULT_HEAP_ARENA_OPTS, mallocOk);
  }

  /** Growing a full default arena by cloning it with extra capacity does not make room:
      the clone's cursor already stands at MAX_CAP, the bound `arena_alloc` checks. */
  method CloneOfFullArena(extraCap: nat, mallocOk: bool) returns (clone: Arena?)
    ensures mallocOk <==> clone != null
    ensures clone != null ==>
      clone.maxCapacity == MAX_CAP + extraCap && clone.size == MAX_CAP && !clone.Fits(1)
  {
    var a := new Arena.Default();
    var p := a.Alloc(MAX_CAP);
    clone := a.HeapClone(extraCap, mallocOk);
  }
}
