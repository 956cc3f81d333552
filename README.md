# Arena allocator model

A Dafny model of the single-header bump ("arena") allocator `arena.h`. An
arena owns one byte buffer and a cursor `size`. Allocation returns the bytes at
the cursor and advances it. Bulk release moves the cursor back, either to zero
(`arena_reset`) or to a saved mark (`arena_snapshot` / `arena_rewind`).
`arena_realloc` grows a region by allocating a new one and copying the old
bytes into it. `arena_heap_clone` builds a larger heap arena with the same live
bytes.

The model has four modules:

- `Arenas` (arena.dfy): the constant `MAX_CAP` (`ARENA_MAX_CAP`), the mark
  type, the heap-arena options and their default, and the class `Arena` with
  the fields `size`, `maxCapacity` and `memory` (a `byte` array). The constructor
  `Default` is `DEFAULT_ARENA`. The method `HeapArena` is `_heap_arena`. The
  methods of the class are the operations of `arena.h`. Pointers are offsets
  into `memory`.
- `ByteCopy` (bytecopy.dfy): the copy loop of `arena_realloc` as a
  step-by-step function on sequences. Lemmas give its closed form, including
  what happens when the source and destination overlap.
- `Bump` (bump.dfy): the offsets and the final cursor of a run of
  allocations, with lemmas that the regions are adjacent and disjoint.
- `ArenaClients` (clients.dfy): caller-side methods showing what follows from
  the contracts alone. They cover a run of allocations, the
  snapshot/alloc/rewind round trip, a double reset, clone independence, a
  capacity scenario and the clone of a full arena.

The invariant `Arena.Valid()` is `MAX_CAP <= memory.Length <= MAX_CAP +
maxCapacity`. A default arena's buffer is exactly `MAX_CAP` bytes. A heap
arena's buffer is `MAX_CAP + maxCapacity` bytes, because `arena_t` already
embeds `ARENA_MAX_CAP` bytes and `_heap_arena` allocates `max_capacity` bytes on
top of that (arena.h:16, arena.h:52). `MAX_CAP` has the header's default value
4 MiB. No proof depends on that value, except `ArenaClients.CapacityScenario`.
`malloc`'s outcome is the parameter `mallocOk`. A failed construction returns
`null`.

### What the code checks

- The field is named `max_capacity`, and the assertion message reads "Arena
  exceeded maximum capacity". Yet arena.h:102 compares `size + n` with the
  constant `ARENA_MAX_CAP`, not with the arena's `max_capacity`. `Arena.Fits`
  is that check. As a result, a heap arena built with `.max_capacity = 64`
  accepts `alloc 10; alloc 60`, and its cursor passes 64
  (`ArenaClients.CapacityScenario`). For the same reason, cloning a full arena
  with extra capacity does not leave room to allocate more
  (`ArenaClients.CloneOfFullArena`).
- `max_capacity` is read only by `arena_heap_clone` (arena.h:75).
- A heap arena's buffer is larger than its `max_capacity`, as described above.
- `arena_rewind` assigns the mark without any check (arena.h:96), so a mark
  above the cursor moves it forward. `Arena.Rewind` has no precondition.
- A `DEFAULT_ARENA` compound literal zero-fills its buffer. A heap arena's
  buffer is whatever `malloc` returned, so the model leaves it undetermined.

## Model

| member | source | states |
|---|---|---|
| `Arenas.Arena.Default` | arena.h:26 | `DEFAULT_ARENA`: cursor 0, capacity `MAX_CAP`, a fresh all-zero buffer of exactly `MAX_CAP` bytes, invariant established |
| `Arenas.Arena.Heap` | arena.h:52-56 | the successful branch of `_heap_arena`: cursor 0, the given capacity, a fresh buffer of `MAX_CAP + capacity` bytes with undetermined contents |
| `Arenas.HeapArena` | arena.h:50-57 | returns `null` exactly when `malloc` fails; otherwise a fresh arena with cursor 0, `maxCapacity == opts.maxCapacity`, and its own fresh buffer of `MAX_CAP + opts.maxCapacity` bytes |
| `Arenas.Arena.Fits` | arena.h:102-103 | the allocation assertion `size + n <= MAX_CAP`; on a valid arena, a request that passes it lies inside the buffer |
| `Arenas.Arena.Snapshot` | arena.h:65-69 | returns the cursor and modifies nothing |
| `Arenas.Arena.Reset` | arena.h:87-91 | sets the cursor to 0; changes only the cursor, so the buffer's bytes and the capacity are unchanged |
| `Arenas.Arena.Rewind` | arena.h:93-97 | sets the cursor to any mark, with no precondition, so a mark above the cursor moves it forward; the buffer and the capacity are unchanged |
| `Arenas.Arena.Alloc` | arena.h:99-109 | requires `size + n <= MAX_CAP` (the constant, not `maxCapacity`); returns the old cursor; advances the cursor by `n`; the region lies inside the buffer; no byte of the buffer changes (no zeroing) |
| `Arenas.Arena.Realloc` | arena.h:111-125 | when `newSize <= oldSize`: returns `oldPtr`, with cursor and buffer unchanged. Otherwise: requires the checked allocation to fit; returns the old cursor; advances the cursor by `newSize`; leaves the buffer equal to the forward copy of `oldSize` bytes; the copy is exact when the old region does not straddle the cursor; every byte outside the first `oldSize` bytes of the new region is unchanged |
| `Arenas.Arena.HeapClone` | arena.h:71-85 | returns `null` exactly when `malloc` fails. Otherwise returns a fresh arena with its own fresh buffer, capacity `maxCapacity + extraCap`, a buffer of `MAX_CAP + maxCapacity + extraCap` bytes, the same cursor and the same live bytes. The source arena is not modified |
| `ByteCopy.SourceOffset` | arena.h:119-122 | the source offset copied to destination offset `k` is `k` when the source does not start below the destination or `k` precedes the overlap; otherwise it is below the distance `dst - src` (the pattern repeats) |
| `ByteCopy.CopyForward` | arena.h:119-122 | the loop `new_ptr[i] = old_ptr[i]` for `i < n` on one buffer, step by step; the buffer keeps its length |
| `ByteCopy.CopyForwardAt` | arena.h:119-122 | closed form of the copy: each destination byte holds the source byte at `SourceOffset`, and every other byte is unchanged |
| `ByteCopy.CopyForwardCopies` | arena.h:119-122 | when the source region ends at or below the destination, or starts at or above it, the destination region equals the source region |
| `ByteCopy.CopyForwardFrame` | arena.h:119-122 | the copy writes nothing outside the destination region |
| `ByteCopy.CopyForwardOntoItself` | arena.h:119-122 | copying a region onto itself leaves the buffer unchanged |
| `ByteCopy.CopyForwardStraddlePeriodic` | arena.h:119-122 | for every straddling copy (`src < dst < src + n`), each destination byte at distance `dst - src` or more from the start equals the byte `dst - src` before it, and the byte at `dst + (dst - src)` is `mem[src]` |
| `ByteCopy.CopyForwardStraddleRepeats` | arena.h:119-122 | a concrete straddling copy that is not exact: copying `[1, 2]` forward by one byte yields `[1, 1]` |
| `Bump.Offsets` | arena.h:105-106 | the offsets returned by a run of allocations, one per request |
| `Bump.SumSnoc` | arena.h:105-106 | one more allocation adds its size to the total and appends the current cursor to the offsets |
| `Bump.SumPrefixMonotone` | arena.h:105-106 | the cursor after a shorter prefix of a run is not above the cursor after a longer prefix |
| `Bump.OffsetsAt` | arena.h:105-106 | the `i`-th allocation starts at the start cursor plus the sizes of all earlier requests |
| `Bump.OffsetsAdjacent` | arena.h:105-106 | each region ends where the next one starts, and the last one ends at the final cursor |
| `Bump.OffsetsDisjoint` | arena.h:105-106 | earlier regions end at or before later ones start, and all regions end at or below the final cursor |
| `ArenaClients.AllocRun` | arena.h:99-109 | successive `Alloc` calls of sizes `ns` return exactly `Offsets(start, ns)` and leave the cursor at `start + Sum(ns)`, with the buffer unchanged |
| `ArenaClients.SnapshotAllocRewind` | arena.h:65-69 | snapshot, then alloc, then rewind to the mark: restores the cursor; the buffer is unchanged |
| `ArenaClients.ResetTwice` | arena.h:87-91 | two resets leave cursor 0 and the same buffer as one reset |
| `ArenaClients.CloneIsIndependent` | arena.h:71-85 | after cloning, a growing realloc in the source arena does not change the clone's live bytes; the two buffers are distinct arrays |
| `ArenaClients.HeapArenaWithDefaults` | arena.h:28-31 | `heap_arena()` with no options builds, when `malloc` succeeds, an arena with cursor 0, capacity `MAX_CAP` and a buffer of `2 * MAX_CAP` bytes |
| `ArenaClients.CapacityScenario` | arena.h:99-103 | on a heap arena of capacity 64, the sequence alloc 10, snapshot, alloc 20, rewind, alloc 60 is accepted and leaves the cursor at 70, above the capacity |
| `ArenaClients.CloneOfFullArena` | arena.h:75-78 | a clone of a default arena filled to `MAX_CAP` has capacity `MAX_CAP + extraCap`, but its cursor is at `MAX_CAP`, so not even one more byte passes the allocation check |

## Left out

- `malloc` and `free`: a call to `malloc` is modelled only by its outcome, the parameter `mallocOk`. `free_heap_arena` (arena.h:59-63) ends ownership and has no behaviour to model. Use after release is not modelled.
- The global `g_default_arena` (arena.h:48): mutable global state with no logic of its own. `Arena.Default` models its initialiser.
- The variadic `heap_arena(...)` macro (arena.h:28-31) is C syntax sugar. It is modelled by `HeapArenaOpts` and `DEFAULT_HEAP_ARENA_OPTS`, the options a caller passes to `HeapArena`.
- The struct layout and the `sizeof(arena_t) + max_capacity` arithmetic: the buffer is an owned array of the resulting length.
- `assert(arena)` and `assert(old_ptr)`: arenas are non-null references, and an offset cannot be null.
- `size_t` wrap-around in `size + n` (arena.h:102), `size += size` (arena.h:106) and `max_capacity + extra_cap` (arena.h:75): sizes are unbounded naturals.
- Arenas.Arena.Realloc: does not require `oldPtr` to be a region previously returned by this arena. It only requires the old region's bytes to lie in the buffer, which the copy reads. Its contract covers every such region, including one that straddles the cursor.
- Arenas.Arena.HeapClone: requires the cursor to lie inside the buffer. After an unchecked forward rewind past the buffer, the C loop would read out of bounds.
- Alignment and thread safety: the code provides neither.
