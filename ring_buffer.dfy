/**
 * The result ring buffer: a fixed array of BITS_BTN_BUFFER_SIZE slots with a
 * read index and a write index. One slot always stays free so that "empty"
 * (indices equal) and "full" (write one behind read) can be told apart, so the
 * usable capacity is one less than the array size.
 */
module RingBuffer {
  import opened ButtonDefs

  /** The index after `i` in a ring of `n` slots: `(i + 1) % n`. */
  function Next(i: nat, n: nat): (r: nat)
    requires i < n
    ensures r < n
    ensures r == (i + 1) % n
  {
    if i + 1 < n then i + 1 else 0
  }

  /** Number of stored results for read index `r` and write index `w`, as the source computes it. */
  function CountOf(r: nat, w: nat, n: nat): nat
    requires r < n && w < n
  {
    if w >= r then w - r else n - r + w
  }

  /** The array slot holding the `i`-th oldest stored result. */
  function Slot(r: nat, i: nat, n: nat): (s: nat)
    requires r < n && i < n
    ensures s < n
  {
    if r + i < n then r + i else r + i - n
  }

  /** The stored count never reaches the array size: at most `n - 1` results fit. */
  lemma CountBelowSize(r: nat, w: nat, n: nat)
    requires r < n && w < n
    ensures CountOf(r, w, n) < n
    ensures CountOf(r, w, n) == 0 <==> r == w
    ensures CountOf(r, w, n) == n - 1 <==> Next(w, n) == r
  {
  }

  /** The slot just past the stored results is the write index. */
  lemma SlotOfCount(r: nat, w: nat, n: nat)
    requires r < n && w < n
    ensures Slot(r, CountOf(r, w, n), n) == w
  {
  }

  /** Writing one more result (not full) grows the count by one. */
  lemma CountAfterWrite(r: nat, w: nat, n: nat)
    requires r < n && w < n && Next(w, n) != r
    ensures CountOf(r, Next(w, n), n) == CountOf(r, w, n) + 1
  {
  }

  /** Advancing both indices (a full overwrite) keeps the count. */
  lemma CountAfterOverwrite(r: nat, w: nat, n: nat)
    requires r < n && w < n && Next(w, n) == r
    ensures CountOf(Next(r, n), Next(w, n), n) == CountOf(r, w, n)
  {
  }

  /** Dropping the oldest result shifts every later one down by one slot position. */
  lemma SlotAfterRead(r: nat, i: nat, n: nat)
    requires r < n && i + 1 < n
    ensures Slot(Next(r, n), i, n) == Slot(r, i + 1, n)
  {
  }

  /** The queue after appending `x` to `s` in a buffer that holds at most `cap` results. */
  function Pushed(s: seq<Result>, x: Result, cap: nat): (t: seq<Result>)
    requires |s| <= cap
    ensures |t| <= cap
  {
    if |s| < cap then s + [x]
    else if cap == 0 then []
    else s[1..] + [x]
  }

  /** A result ring buffer (`bits_btn_ring_buffer_t` with its overwrite counter). */
  class ResultBuffer {
    /** The array size, BITS_BTN_BUFFER_SIZE. */
    const size: nat
    const buf: array<Result>
    var readIdx: nat
    var writeIdx: nat
    var overwriteCount: nat
    /** The stored results, oldest first. */
    ghost var contents: seq<Result>

    ghost predicate Valid()
      reads this, buf
    {
      && buf.Length == size && 1 <= size
      && readIdx < size && writeIdx < size
      && |contents| == CountOf(readIdx, writeIdx, size)
      && forall i :: 0 <= i < |contents| ==> contents[i] == buf[Slot(readIdx, i, size)]
    }

    /** A buffer of `size` slots, as the static storage starts: both indices and the counter zero. */
    constructor (size: nat, filler: Result)
      requires 1 <= size
      ensures Valid() && fresh(buf)
      ensures this.size == size && contents == [] && overwriteCount == 0
    {
      this.size := size;
      buf := new Result[size](_ => filler);
      readIdx, writeIdx, overwriteCount := 0, 0, 0;
      contents := [];
    }

    /** `bits_btn_init_buffer`: empties the buffer and zeroes the overwrite counter. */
    method Init()
      requires Valid()
      modifies this
      ensures Valid()
      ensures readIdx == 0 && writeIdx == 0 && overwriteCount == 0 && contents == []
    {
      readIdx, writeIdx, overwriteCount := 0, 0, 0;
      contents := [];
    }

    /** `bits_btn_clear_buffer`: empties the buffer; the overwrite counter is kept. */
    method Clear()
      requires Valid()
      modifies this
      ensures Valid()
      ensures readIdx == 0 && writeIdx == 0 && contents == []
      ensures overwriteCount == old(overwriteCount)
    {
      readIdx, writeIdx := 0, 0;
      contents := [];
    }

    /** Usable capacity: one slot is kept free. */
    function Capacity(): (c: nat)
      reads this
      requires 1 <= size
      ensures c < size && c + 1 == size
    {
      size - 1
    }

    /** `bits_btn_is_buffer_empty`: the indices are equal exactly when nothing is stored. */
    function IsEmpty(): (r: bool)
      reads this, buf
      requires Valid()
      ensures r <==> contents == []
    {
      CountBelowSize(readIdx, writeIdx, size);
      readIdx == writeIdx
    }

    /** `bits_btn_is_buffer_full`: the write index is one behind the read index exactly when the capacity is used up. */
    function IsFull(): (r: bool)
      reads this, buf
      requires Valid()
      ensures r <==> |contents| == Capacity()
    {
      CountBelowSize(readIdx, writeIdx, size);
      Next(writeIdx, size) == readIdx
    }

    /** `get_bits_btn_buffer_count`: the number of stored results, never more than the capacity. */
    function Count(): (c: nat)
      reads this, buf
      requires Valid()
      ensures c == |contents| && c <= Capacity()
    {
      CountBelowSize(readIdx, writeIdx, size);
      CountOf(readIdx, writeIdx, size)
    }

    /** `bits_button_peek_key_result`: the oldest stored result, left in place. */
    function Peek(): (r: Option<Result>)
      reads this, buf
      requires Valid()
      ensures contents == [] ==> r == None
      ensures contents != [] ==> r == Some(contents[0])
    {
      CountBelowSize(readIdx, writeIdx, size);
      if readIdx == writeIdx then None else Some(buf[readIdx])
    }

    /**
     * `bits_btn_write_buffer`: appends `x` unless the buffer is full; a
     * refused write counts as an overwrite and leaves the contents alone.
     */
    method Write(x: Result) returns (ok: bool)
      requires Valid()
      modifies this, buf
      ensures Valid()
      ensures ok <==> |old(contents)| < Capacity()
      ensures ok ==> contents == old(contents) + [x] && overwriteCount == old(overwriteCount)
      ensures !ok ==> contents == old(contents) && overwriteCount == old(overwriteCount) + 1
    {
      CountBelowSize(readIdx, writeIdx, size);
      var next := Next(writeIdx, size);
      if next == readIdx {
        overwriteCount := overwriteCount + 1;
        return false;
      }
      SlotOfCount(readIdx, writeIdx, size);
      CountAfterWrite(readIdx, writeIdx, size);
      buf[writeIdx] := x;
      writeIdx := next;
      contents := contents + [x];
      ok := true;
    }

    /**
     * `bits_btn_write_buffer_overwrite`: always stores `x`; when the buffer
     * was full the oldest result is dropped and the overwrite counter grows.
     */
    method WriteOverwrite(x: Result) returns (ok: bool)
      requires Valid()
      modifies this, buf
      ensures Valid() && ok
      ensures contents == Pushed(old(contents), x, Capacity())
      ensures overwriteCount == old(overwriteCount) + (if |old(contents)| == Capacity() then 1 else 0)
    {
      CountBelowSize(readIdx, writeIdx, size);
      SlotOfCount(readIdx, writeIdx, size);
      ghost var c0, b0, r0 := contents, buf[..], readIdx;
      var next := Next(writeIdx, size);
      buf[writeIdx] := x;
      if next == readIdx {
        overwriteCount := overwriteCount + 1;
        CountAfterOverwrite(readIdx, writeIdx, size);
        readIdx := Next(readIdx, size);
        contents := if |contents| == 0 then [] else contents[1..] + [x];
        forall i | 0 <= i < |contents|
          ensures contents[i] == buf[Slot(readIdx, i, size)]
        {
          SlotAfterRead(r0, i, size);
          if i + 1 < |c0| {
            assert contents[i] == c0[i + 1] == b0[Slot(r0, i + 1, size)];
          }
        }
      } else {
        CountAfterWrite(readIdx, writeIdx, size);
        contents := contents + [x];
        forall i | 0 <= i < |contents|
          ensures contents[i] == buf[Slot(readIdx, i, size)]
        {
          if i < |c0| {
            assert contents[i] == c0[i] == b0[Slot(r0, i, size)];
          }
        }
      }
      writeIdx := next;
      ok := true;
    }

    /** `bits_btn_read_buffer`: removes and returns the oldest result; None when empty. */
    method Read() returns (r: Option<Result>)
      requires Valid()
      modifies this
      ensures Valid() && overwriteCount == old(overwriteCount)
      ensures old(contents) == [] ==> r == None && contents == old(contents)
      ensures old(contents) != [] ==> r == Some(old(contents)[0]) && contents == old(contents)[1..]
    {
      CountBelowSize(readIdx, writeIdx, size);
      if readIdx == writeIdx {
        return None;
      }
      r := Some(buf[readIdx]);
      forall i | 0 <= i < |contents| - 1
        ensures Slot(Next(readIdx, size), i, size) == Slot(readIdx, i + 1, size)
      {
        SlotAfterRead(readIdx, i, size);
      }
      readIdx := Next(readIdx, size);
      contents := contents[1..];
    }
  }

  // ---------------------------------------------------------------------------
  // Overwrite mode over many writes
  // ---------------------------------------------------------------------------

  /** The last `k` elements of `s` (all of `s` when it is shorter). */
  function Newest(s: seq<Result>, k: nat): (t: seq<Result>)
    ensures |t| <= k && |t| <= |s|
  {
    if |s| <= k then s else s[|s| - k..]
  }

  /** Pushing results one after another in overwrite mode. */
  function PushAll(s: seq<Result>, xs: seq<Result>, cap: nat): (t: seq<Result>)
    requires |s| <= cap
    ensures |t| <= cap
    decreases |xs|
  {
    if xs == [] then s else Pushed(PushAll(s, xs[..|xs| - 1], cap), xs[|xs| - 1], cap)
  }

  /** How many of those pushes found the buffer full and dropped its oldest result. */
  function Overflows(s: seq<Result>, xs: seq<Result>, cap: nat): nat
    requires |s| <= cap
    decreases |xs|
  {
    if xs == [] then 0
    else
      var before := PushAll(s, xs[..|xs| - 1], cap);
      Overflows(s, xs[..|xs| - 1], cap) + (if |before| == cap then 1 else 0)
  }

  /** Taking the newest `k` before appending changes nothing once the newest `k` are taken again. */
  lemma {:induction false} NewestOfNewest(u: seq<Result>, v: seq<Result>, k: nat)
    ensures Newest(Newest(u, k) + v, k) == Newest(u + v, k)
  {
    if |u| > k {
      var w := u[|u| - k..];
      if v == [] {
        assert w + v == w && u + v == u;
      } else {
        var a := (w + v)[|v|..];
        var b := (u + v)[|u| + |v| - k..];
        forall i | 0 <= i < k
          ensures a[i] == b[i]
        {
          if |v| + i < k {
            assert a[i] == w[|v| + i] == u[|u| - k + |v| + i];
          } else {
            assert a[i] == v[|v| + i - k];
          }
        }
        assert Newest(w + v, k) == a && Newest(u + v, k) == b;
      }
    }
  }

  /** A single overwrite push keeps the newest `cap` results. */
  lemma {:induction false} PushedIsNewest(s: seq<Result>, x: Result, cap: nat)
    requires |s| <= cap
    ensures Pushed(s, x, cap) == Newest(s + [x], cap)
  {
    if |s| == cap && cap > 0 {
      assert (s + [x])[|s + [x]| - cap..] == s[1..] + [x];
    }
  }

  /**
   * In overwrite mode the buffer always ends up holding the newest `cap`
   * results of everything written, in write order: the oldest are the ones
   * lost.
   */
  lemma {:induction false} PushAllKeepsNewest(s: seq<Result>, xs: seq<Result>, cap: nat)
    requires |s| <= cap
    ensures PushAll(s, xs, cap) == Newest(s + xs, cap)
    decreases |xs|
  {
    if xs == [] {
      assert s + xs == s;
    } else {
      var init := xs[..|xs| - 1];
      var x := xs[|xs| - 1];
      PushAllKeepsNewest(s, init, cap);
      PushedIsNewest(PushAll(s, init, cap), x, cap);
      NewestOfNewest(s + init, [x], cap);
      assert s + init + [x] == s + xs;
    }
  }

  /** Overwrite pushes never lose a result while there is room for it. */
  lemma {:induction false} PushAllWithRoom(s: seq<Result>, xs: seq<Result>, cap: nat)
    requires |s| + |xs| <= cap
    ensures PushAll(s, xs, cap) == s + xs
  {
    PushAllKeepsNewest(s, xs, cap);
  }

  /**
   * Nothing goes missing unaccounted: every result ever stored is either
   * still in the buffer or counted by the overwrite counter.
   */
  lemma {:induction false} OverflowsAccount(s: seq<Result>, xs: seq<Result>, cap: nat)
    requires |s| <= cap
    ensures |PushAll(s, xs, cap)| + Overflows(s, xs, cap) == |s| + |xs|
    decreases |xs|
  {
    if xs != [] {
      OverflowsAccount(s, xs[..|xs| - 1], cap);
    }
  }

  /** With at least two slots a buffer is never empty and full at once; with one slot it always is. */
  lemma EmptyAndFull(b: ResultBuffer)
    requires b.Valid()
    ensures b.size >= 2 ==> !(b.IsEmpty() && b.IsFull())
    ensures b.size == 1 ==> b.IsEmpty() && b.IsFull()
  {
  }
}
