/**
 Byte buffers and the forward byte-by-byte copy that `arena_realloc` performs.

 The copy loop reads `src[i]` and writes `dst[i]` for increasing `i`, on one
 buffer. CopyForward is that loop, one step at a time; CopyForwardAt gives the
 closed form of its result, including the case where the two regions overlap.
 */
module ByteCopy {

  /** One byte of an arena buffer (a C `char`; only ever copied, never computed with). */
  newtype byte = b: int | 0 <= b < 0x100

  /** Which source offset ends up at offset `k` of the destination after a forward copy.
      When the source starts below the destination, bytes already written are read
      again, so the source pattern repeats with period `dst - src`. */
  function SourceOffset(src: nat, dst: nat, k: nat): (r: nat)
    ensures src < dst ==> r < dst - src
    ensures (dst <= src || k < dst - src) ==> r == k
    decreases k
  {
    if src < dst && dst - src <= k then SourceOffset(src, dst, k - (dst - src)) else k
  }

  /** The buffer after the first `n` steps of `for (i = 0; i < n; ++i) dst[i] = src[i];`. */
  function CopyForward(mem: seq<byte>, src: nat, dst: nat, n: nat): (r: seq<byte>)
    requires src + n <= |mem| && dst + n <= |mem|
    ensures |r| == |mem|
  {
    if n == 0 then mem
    else
      var m := CopyForward(mem, src, dst, n - 1);
      m[dst + n - 1 := m[src + n - 1]]
  }

  /** Closed form of the copy: inside the destination region every byte comes from
      the source offset SourceOffset gives; every other byte is untouched. */
  lemma {:induction false} CopyForwardAt(mem: seq<byte>, src: nat, dst: nat, n: nat, j: nat)
    requires src + n <= |mem| && dst + n <= |mem| && j < |mem|
    ensures CopyForward(mem, src, dst, n)[j] ==
            if dst <= j < dst + n then mem[src + SourceOffset(src, dst, j - dst)] else mem[j]
  {
    if n > 0 {
      var m := CopyForward(mem, src, dst, n - 1);
      if j != dst + n - 1 {
        CopyForwardAt(mem, src, dst, n - 1, j);
      } else {
        CopyForwardAt(mem, src, dst, n - 1, src + n - 1);
      }
    }
  }

  /** When the source does not start below the destination, or ends before it, the
      destination region becomes an exact copy of the source region. */
  lemma {:induction false} CopyForwardCopies(mem: seq<byte>, src: nat, dst: nat, n: nat)
    requires src + n <= |mem| && dst + n <= |mem|
    requires dst <= src || src + n <= dst
    ensures CopyForward(mem, src, dst, n)[dst..dst + n] == mem[src..src + n]
  {
    var r := CopyForward(mem, src, dst, n);
    forall j | dst <= j < dst + n
      ensures r[j] == mem[src + (j - dst)]
    {
      CopyForwardAt(mem, src, dst, n, j);
    }
  }

  /** The copy writes only the destination region. */
  lemma {:induction false} CopyForwardFrame(mem: seq<byte>, src: nat, dst: nat, n: nat, j: nat)
    requires src + n <= |mem| && dst + n <= |mem| && j < |mem|
    requires j < dst || dst + n <= j
    ensures CopyForward(mem, src, dst, n)[j] == mem[j]
  {
    CopyForwardAt(mem, src, dst, n, j);
  }

  /** Copying a region onto itself changes nothing. */
  lemma {:induction false} CopyForwardOntoItself(mem: seq<byte>, at: nat, n: nat)
    requires at + n <= |mem|
    ensures CopyForward(mem, at, at, n) == mem
  {
    var r := CopyForward(mem, at, at, n);
    forall j | 0 <= j < |mem|
      ensures r[j] == mem[j]
    {
      CopyForwardAt(mem, at, at, n, j);
    }
  }

  /** When the source starts below the destination and overlaps it, the destination
      repeats with period `dst - src`: every byte from `dst + (dst - src)` on is the
      byte `dst - src` before it, and the first repeated byte is `mem[src]`. */
  lemma {:induction false} CopyForwardStraddlePeriodic(mem: seq<byte>, src: nat, dst: nat, n: nat, k: nat)
    requires src + n <= |mem| && dst + n <= |mem|
    requires src < dst && dst - src <= k < n
    ensures CopyForward(mem, src, dst, n)[dst + k] == CopyForward(mem, src, dst, n)[dst + k - (dst - src)]
    ensures k == dst - src ==> CopyForward(mem, src, dst, n)[dst + k] == mem[src]
  {
    CopyForwardAt(mem, src, dst, n, dst + k);
    CopyForwardAt(mem, src, dst, n, dst + k - (dst - src));
  }

  /** A source region that straddles the destination's start is not copied exactly:
      copying bytes [1, 2] at offset 0 to offset 1 repeats the first byte. */
  lemma CopyForwardStraddleRepeats()
    ensures CopyForward([1, 2, 0, 0], 0, 1, 2) == [1, 1, 1, 0]
    ensures CopyForward([1, 2, 0, 0], 0, 1, 2)[1..3] != [1, 2]
  {
    var r := CopyForward([1, 2, 0, 0], 0, 1, 2);
    assert r == [1, 1, 1, 0];
    assert r[1..3][1] == 1;
  }
}
