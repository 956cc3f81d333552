/**
 The arena (bump) allocator of `arena.h`.

 An arena owns one byte buffer and a cursor `size`: everything below the cursor
 is live, allocation hands out the bytes at the cursor and advances it, and
 bulk release moves the cursor back. Pointers into the buffer are modelled as
 offsets into `memory`.

 The buffer of a `DEFAULT_ARENA` is exactly MAX_CAP bytes; a heap arena is one
 block of `sizeof(arena_t) + max_capacity` bytes, and since `arena_t` already
 embeds MAX_CAP bytes of buffer, its usable buffer is MAX_CAP + max_capacity
 bytes. Allocation checks the cursor against MAX_CAP, not against the arena's
 own `max_capacity`; because every buffer holds at least MAX_CAP bytes, an
 allocation that passes the check stays inside the buffer.
 */
module Arenas {
  import opened ByteCopy

  /** `ARENA_MAX_CAP`: the compile-time bound every allocation is checked against,
      and the capacity of a default arena and of heap arenas built without options. */
  const MAX_CAP: nat := 4 * 1024 * 1024

  /** `arena_mark_t`: a saved value of the cursor. */
  type Mark = nat

  /** `heap_arena_opts_t`: the options of a heap arena. */
  datatype HeapArenaOpts = HeapArenaOpts(maxCapacity: nat)

  /** `DEFAULT_HEAP_ARENA_OPTS`: what `heap_arena()` uses for an option it is not given. */
  const DEFAULT_HEAP_ARENA_OPTS: HeapArenaOpts := HeapArenaOpts(MAX_CAP)

  /** `arena_t`. The buffer and the capacity are fixed when the arena is built; only
      the cursor and the buffer's bytes change afterwards. */
  class Arena {
    var size: nat
    const maxCapacity: nat
    const memory: array<byte>

    /** Every buffer holds at least MAX_CAP bytes (so a checked allocation is in bounds)
        and at most MAX_CAP + maxCapacity (so a clone, whose buffer is
        MAX_CAP + maxCapacity + extra bytes, can hold every byte of it). */
    ghost predicate Valid()
    {
      MAX_CAP <= memory.Length <= MAX_CAP + maxCapacity
    }

    /** The live prefix of the buffer. */
    ghost function Live(): seq<byte>
      reads this, memory
      requires size <= memory.Length
    {
      memory[..size]
    }

    /** `DEFAULT_ARENA`: the compound literal `(arena_t){ .max_capacity = ARENA_MAX_CAP }`,
        whose other members C initialises to zero. */
    constructor Default()
      ensures Valid() && fresh(memory)
      ensures size == 0 && maxCapacity == MAX_CAP && memory.Length == MAX_CAP
      ensures forall i :: 0 <= i < memory.Length ==> memory[i] == 0
    {
      size := 0;
      maxCapacity := MAX_CAP;
      memory := new byte[MAX_CAP](_ => 0);
    }

    /** The successful branch of `_heap_arena`: a block with room for MAX_CAP + capacity
        buffer bytes whose contents `malloc` leaves undetermined. */
    constructor Heap(capacity: nat)
      ensures Valid() && fresh(memory)
      ensures size == 0 && maxCapacity == capacity && memory.Length == MAX_CAP + capacity
    {
      size := 0;
      maxCapacity := capacity;
      memory := new byte[MAX_CAP + capacity];
    }

    /** The assertion guarding `arena_alloc`: the cursor may not pass MAX_CAP. A request
        that passes it lies inside the buffer. */
    predicate Fits(n: nat)
      reads this
      ensures Fits(n) && Valid() ==> size + n <= memory.Length
    {
      size + n <= MAX_CAP
    }

    /** `arena_snapshot`: the current cursor, with no side effect. */
    method Snapshot() returns (mark: Mark)
      ensures mark == size
    {
      mark := size;
    }

    /** `arena_reset`: discard every allocation; the bytes stay as they were. */
    method Reset()
      modifies this`size
      ensures size == 0
      ensures memory[..] == old(memory[..])
    {
      size := 0;
    }

    /** `arena_rewind`: set the cursor to `mark`, unchecked. A mark above the cursor
        moves it forward over bytes nobody allocated. */
    method Rewind(mark: Mark)
      modifies this`size
      ensures size == mark
      ensures memory[..] == old(memory[..])
    {
      size := mark;
    }

    /** `arena_alloc`: the `n` bytes at the cursor. They are not zeroed: the buffer
        is left exactly as it was. */
    method Alloc(n: nat) returns (p: nat)
      requires Valid()
      requires Fits(n)
      modifies this`size
      ensures p == old(size) && size == old(size) + n
      ensures p + n <= memory.Length
      ensures memory[..] == old(memory[..])
    {
      p := size;
      size := size + n;
    }

    /** `arena_realloc`: a request that does not grow the region returns it unchanged;
        a growing one allocates `newSize` bytes at the cursor and copies the `oldSize`
        bytes at `oldPtr` into them, forwards, byte by byte. The copy is exact when the
        old region lies below the cursor (as a live allocation does) or at or above it;
        a region straddling the cursor is copied as CopyForwardAt describes. */
    method Realloc(oldPtr: nat, oldSize: nat, newSize: nat) returns (p: nat)
      requires Valid()
      requires newSize > oldSize ==> Fits(newSize) && oldPtr + oldSize <= memory.Length
      modifies this`size, memory
      ensures newSize <= oldSize ==>
        p == oldPtr && size == old(size) && memory[..] == old(memory[..])
      ensures newSize > oldSize ==>
        p == old(size) && size == old(size) + newSize && p + newSize <= memory.Length &&
        memory[..] == CopyForward(old(memory[..]), oldPtr, p, oldSize)
      ensures newSize > oldSize && (oldPtr + oldSize <= p || p <= oldPtr) ==>
        memory[p..p + oldSize] == old(memory[oldPtr..oldPtr + oldSize])
      ensures newSize > oldSize ==>
        forall j :: 0 <= j < memory.Length && !(p <= j < p + oldSize) ==> memory[j] == old(memory[j])
    {
      if newSize <= oldSize {
        return oldPtr;
      }
      p := Alloc(newSize);
      var i := 0;
      while i < oldSize
        invariant 0 <= i <= oldSize
        invariant size == old(size) + newSize
        invariant memory[..] == CopyForward(old(memory[..]), oldPtr, p, i)
      {
        memory[p + i] := memory[oldPtr + i];
        i := i + 1;
      }
      if oldPtr + oldSize <= p || p <= oldPtr {
        CopyForwardCopies(old(memory[..]), oldPtr, p, oldSize);
      }
      forall j | 0 <= j < memory.Length && !(p <= j < p + oldSize)
        ensures memory[j] == old(memory[j])
      {
        CopyForwardFrame(old(memory[..]), oldPtr, p, oldSize, j);
      }
    }

    /** `arena_heap_clone`: a new heap arena of capacity maxCapacity + extraCap holding a
        copy of this arena's live bytes at the same offsets and the same cursor, so any
        mark taken on this arena means the same on the clone. This arena is not changed,
        and the clone's buffer is a fresh array, so neither arena's later changes reach
        the other. The copy loop reads `size` bytes of this buffer, so the cursor must lie
        inside it. */
    method HeapClone(extraCap: nat, mallocOk: bool) returns (clone: Arena?)
      requires Valid()
      requires size <= memory.Length
      ensures mallocOk <==> clone != null
      ensures clone != null ==>
        fresh(clone) && fresh(clone.memory) && clone.Valid() &&
        clone.maxCapacity == maxCapacity + extraCap &&
        clone.memory.Length == MAX_CAP + maxCapacity + extraCap &&
        clone.size == size && clone.Live() == Live()
    {
      clone := HeapArena(HeapArenaOpts(maxCapacity + extraCap), mallocOk);
      if clone == null {
        return;
      }
      clone.size := size;
      var i := 0;
      while i < size
        invariant 0 <= i <= size
        invariant clone.size == size
        invariant clone.memory[..i] == memory[..i]
      {
        clone.memory[i] := memory[i];
        i := i + 1;
      }
    }
  }

  /** `_heap_arena`: one `malloc`ed block holding the arena record and its buffer,
      or `null` when `malloc` fails (`mallocOk` stands for its outcome); a failed
      construction leaves nothing behind. */
  method HeapArena(opts: HeapArenaOpts, mallocOk: bool) returns (arena: Arena?)
    ensures mallocOk <==> arena != null
    ensures arena != null ==>
      fresh(arena) && fresh(arena.memory) && arena.Valid() &&
      arena.size == 0 && arena.maxCapacity == opts.maxCapacity &&
      arena.memory.Length == MAX_CAP + opts.maxCapacity
  {
    if !mallocOk {
      return null;
    }
    arena := new Arena.Heap(opts.maxCapacity);
  }
}
