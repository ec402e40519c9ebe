/**
 * The loader's system calls: `writev` to the console, the `brk` heap
 * boundary, the `mmap`/`mprotect` stubs and the handler that dispatches on
 * the syscall number.
 *
 * The console is a parameter: the outcome of each `write` the loop makes,
 * in order. The user memory behind the `iovec` pointers is the sequence of
 * buffers. Mapping fresh pages (`map_new`) is code this model does not see:
 * each request is logged as an `(address, length)` pair.
 */
module LoaderSyscall {
  import opened Wrappers
  import opened Bytes
  import opened Arith

  const ISIZE_LIMIT: int := 0x8000_0000_0000_0000
  const I32_LIMIT: int := 0x8000_0000

  predicate IsIsize(x: int)
  {
    -ISIZE_LIMIT <= x < ISIZE_LIMIT
  }

  /** `x as i32` from an `isize`: keep the low 32 bits, read them as signed. */
  function ToI32(x: int): (r: int)
    ensures -I32_LIMIT <= r < I32_LIMIT
    ensures (r - x) % U32_LIMIT == 0
  {
    var low := x % U32_LIMIT;
    if low < I32_LIMIT then low else low - U32_LIMIT
  }

  /** `x as usize` from an `isize`: the same 64 bits read as unsigned. */
  function ToUsize(x: int): (r: nat)
    requires IsIsize(x)
    ensures r < USIZE_LIMIT && (r - x) % USIZE_LIMIT == 0
    ensures x >= 0 ==> r == x
  {
    if x >= 0 then x else x + USIZE_LIMIT
  }

  /** `x as isize` from a `usize`: the same 64 bits read as signed. */
  function ToIsize(x: nat): (r: int)
    requires x < USIZE_LIMIT
    ensures IsIsize(r) && (r - x) % USIZE_LIMIT == 0
    ensures x < ISIZE_LIMIT ==> r == x
  {
    if x < ISIZE_LIMIT then x else x - USIZE_LIMIT
  }

  /** The casts between `isize` and `usize` undo each other. */
  lemma CastsRoundTrip(x: int, u: nat)
    requires IsIsize(x) && u < USIZE_LIMIT
    ensures ToIsize(ToUsize(x)) == x && ToUsize(ToIsize(u)) == u
  {
  }

  // ---------------------------------------------------------------------
  // writev

  const EINVAL: nat := 22
  const EIO: nat := 5

  /** What one `write` to the console returns. */
  datatype WriteOutcome = Wrote(n: nat) | WriteError

  /** Every `Ok(n)` is at most the buffer's length, as `io::Write::write` promises. */
  predicate Honest(iovs: seq<seq<byte>>, outcomes: seq<WriteOutcome>)
    requires |outcomes| == |iovs|
  {
    forall i :: 0 <= i < |iovs| && outcomes[i].Wrote? ==> outcomes[i].n <= |iovs[i]|
  }

  function SumLens(iovs: seq<seq<byte>>): nat
  {
    if iovs == [] then 0 else |iovs[0]| + SumLens(iovs[1..])
  }

  function Flatten(iovs: seq<seq<byte>>): (r: seq<byte>)
    ensures |r| == SumLens(iovs)
  {
    if iovs == [] then [] else iovs[0] + Flatten(iovs[1..])
  }

  lemma {:induction false} SumLensAppend(iovs: seq<seq<byte>>, buf: seq<byte>)
    ensures SumLens(iovs + [buf]) == SumLens(iovs) + |buf|
    ensures Flatten(iovs + [buf]) == Flatten(iovs) + buf
    decreases |iovs|
  {
    if iovs != [] {
      assert (iovs + [buf])[1..] == iovs[1..] + [buf];
      SumLensAppend(iovs[1..], buf);
    }
  }

  /**
   * The loop of `writev` from `total` bytes written so far: each buffer in
   * turn; a short write returns the new total, an error returns EIO if
   * nothing has been written and the total otherwise.
   */
  function WriteLoop(iovs: seq<seq<byte>>, outcomes: seq<WriteOutcome>, total: int): (r: Result<int, int>)
    requires |outcomes| == |iovs|
    ensures r.Failure? ==> r.error == EIO
    ensures total >= 0 && r.Failure? ==> total == 0
    ensures total >= 0 && r.Success? ==> total <= r.value
    decreases |iovs|
  {
    if iovs == [] then Success(total)
    else match outcomes[0]
      case Wrote(n) =>
        if n != |iovs[0]| then Success(total + n)
        else WriteLoop(iovs[1..], outcomes[1..], total + n)
      case WriteError => if total == 0 then Failure(EIO) else Success(total)
  }

  /** `writev` on values: EINVAL before any write for a bad `fd` or a negative count. */
  function Writev(fd: int, iovcnt: int, iovs: seq<seq<byte>>, outcomes: seq<WriteOutcome>): (r: Result<int, int>)
    requires |outcomes| == |iovs| && (iovcnt >= 0 ==> iovcnt == |iovs|)
    ensures !(0 <= fd <= 2) || iovcnt < 0 ==> r == Failure(EINVAL)
    ensures 0 <= fd <= 2 && iovcnt >= 0 ==> r == WriteLoop(iovs, outcomes, 0)
  {
    if !(0 <= fd <= 2) then Failure(EINVAL)
    else if iovcnt < 0 then Failure(EINVAL)
    else WriteLoop(iovs, outcomes, 0)
  }

  /** When every buffer is written in full, the result is the sum of their lengths. */
  lemma {:induction false} WriteLoopAllFull(iovs: seq<seq<byte>>, outcomes: seq<WriteOutcome>, total: int)
    requires |outcomes| == |iovs|
    requires forall i :: 0 <= i < |iovs| ==> outcomes[i] == Wrote(|iovs[i]|)
    ensures WriteLoop(iovs, outcomes, total) == Success(total + SumLens(iovs))
    decreases |iovs|
  {
    if iovs != [] {
      WriteLoopAllFull(iovs[1..], outcomes[1..], total + |iovs[0]|);
    }
  }

  /**
   * Written in full up to buffer `k`, the loop stops there with what `k`'s
   * write says: a short write adds its count, an error gives EIO only when
   * nothing at all has been written.
   */
  lemma {:induction false} WriteLoopStops(iovs: seq<seq<byte>>, outcomes: seq<WriteOutcome>, total: int, k: nat)
    requires |outcomes| == |iovs| && k < |iovs|
    requires forall i :: 0 <= i < k ==> outcomes[i] == Wrote(|iovs[i]|)
    requires outcomes[k] != Wrote(|iovs[k]|)
    ensures outcomes[k].Wrote? ==> WriteLoop(iovs, outcomes, total) == Success(total + SumLens(iovs[..k]) + outcomes[k].n)
    ensures outcomes[k].WriteError? && total + SumLens(iovs[..k]) == 0 ==> WriteLoop(iovs, outcomes, total) == Failure(EIO)
    ensures outcomes[k].WriteError? && total + SumLens(iovs[..k]) != 0 ==>
      WriteLoop(iovs, outcomes, total) == Success(total + SumLens(iovs[..k]))
    decreases k
  {
    if k > 0 {
      WriteLoopStops(iovs[1..], outcomes[1..], total + |iovs[0]|, k - 1);
      assert iovs[..k] == [iovs[0]] + iovs[1..][..k - 1];
    }
  }

  /** With an honest console the result never exceeds what was asked, and the only error is EIO. */
  lemma {:induction false} WriteLoopBound(iovs: seq<seq<byte>>, outcomes: seq<WriteOutcome>, total: nat)
    requires |outcomes| == |iovs| && Honest(iovs, outcomes)
    ensures WriteLoop(iovs, outcomes, total).Success? ==>
      total <= WriteLoop(iovs, outcomes, total).value <= total + SumLens(iovs)
    ensures WriteLoop(iovs, outcomes, total).Failure? ==> WriteLoop(iovs, outcomes, total).error == EIO && total == 0
    decreases |iovs|
  {
    if iovs != [] && outcomes[0] == Wrote(|iovs[0]|) {
      assert Honest(iovs[1..], outcomes[1..]) by {
        forall i | 0 <= i < |iovs[1..]| && outcomes[1..][i].Wrote?
          ensures outcomes[1..][i].n <= |iovs[1..][i]|
        {
          assert outcomes[1..][i] == outcomes[i + 1];
        }
      }
      WriteLoopBound(iovs[1..], outcomes[1..], total + |iovs[0]|);
    }
  }

  /**
   * `writev`: the buffers go to the console in order; `written` is what the
   * console accepted.
   */
  method WritevLoop(fd: int, iovcnt: int, iovs: seq<seq<byte>>, outcomes: seq<WriteOutcome>)
    returns (r: Result<int, int>, written: seq<byte>)
    requires |outcomes| == |iovs| && (iovcnt >= 0 ==> iovcnt == |iovs|) && Honest(iovs, outcomes)
    requires SumLens(iovs) < ISIZE_LIMIT
    ensures r == Writev(fd, iovcnt, iovs, outcomes)
    ensures r.Success? ==> |written| == r.value
    ensures r.Failure? ==> written == []
    ensures written <= Flatten(iovs)
  {
    written := [];
    if !(0 <= fd <= 2) {
      return Failure(EINVAL), written;
    }
    if iovcnt < 0 {
      return Failure(EINVAL), written;
    }
    var total := 0;
    for i := 0 to |iovs|
      invariant total == SumLens(iovs[..i]) && written == Flatten(iovs[..i])
      invariant WriteLoop(iovs[i..], outcomes[i..], total) == WriteLoop(iovs, outcomes, 0)
    {
      var buf := iovs[i];
      PrefixStep(iovs, i);
      match outcomes[i] {
        case Wrote(n) =>
          assert total + n < ISIZE_LIMIT;
          total := total + n;
          if n != |buf| {
            ShortWritePrefix(iovs, i, n);
            return Success(total), written + buf[..n];
          }
          assert buf[..n] == buf;
          written := written + buf;
        case WriteError =>
          if total == 0 {
            return Failure(EIO), [];
          } else {
            return Success(total), written;
          }
      }
    }
    assert iovs[..|iovs|] == iovs;
    r := Success(total);
  }

  /** A short write of buffer `k` leaves what was written a prefix of all the buffers. */
  lemma ShortWritePrefix(iovs: seq<seq<byte>>, k: nat, n: nat)
    requires k < |iovs| && n <= |iovs[k]|
    ensures Flatten(iovs[..k]) + iovs[k][..n] <= Flatten(iovs)
  {
    PrefixStep(iovs, k);
    var done := Flatten(iovs[..k]);
    assert done + iovs[k][..n] == (done + iovs[k])[..|done| + n];
  }

  /** The buffers before `k`, then buffer `k`: the loop's step, and what it leaves within the whole. */
  lemma PrefixStep(iovs: seq<seq<byte>>, k: nat)
    requires k < |iovs|
    ensures SumLens(iovs[..k + 1]) == SumLens(iovs[..k]) + |iovs[k]| <= SumLens(iovs)
    ensures Flatten(iovs[..k + 1]) == Flatten(iovs[..k]) + iovs[k] && Flatten(iovs[..k + 1]) <= Flatten(iovs)
    ensures iovs[k..][0] == iovs[k] && iovs[k..][1..] == iovs[k + 1..]
  {
    assert iovs[..k + 1] == iovs[..k] + [iovs[k]];
    SumLensAppend(iovs[..k], iovs[k]);
    FlattenPrefix(iovs, k + 1);
  }

  lemma {:induction false} FlattenPrefix(iovs: seq<seq<byte>>, k: nat)
    requires k <= |iovs|
    ensures Flatten(iovs[..k]) <= Flatten(iovs) && SumLens(iovs[..k]) <= SumLens(iovs)
    decreases k
  {
    if k > 0 {
      assert iovs[..k][1..] == iovs[1..][..k - 1];
      FlattenPrefix(iovs[1..], k - 1);
    }
  }

  // ---------------------------------------------------------------------
  // brk

  /** The heap boundary: the program break and the range it may move in. */
  datatype Heap = Heap(brk: nat, brkMin: nat, brkMax: nat)

  /**
   * `brk(newBrk)` on values: the new heap and, when the break grows past
   * `brkMax`, the region `(address, length)` to map.
   */
  function BrkStep(h: Heap, newBrk: nat, pageSize: nat): (r: (Heap, Option<(nat, nat)>))
    requires pageSize > 0
    requires newBrk >= h.brkMin && newBrk > h.brkMax ==> RoundUp(newBrk, pageSize) < USIZE_LIMIT
    ensures r.0.brkMin == h.brkMin && r.0.brkMax >= h.brkMax
    ensures newBrk < h.brkMin ==> r == (h, None)
    ensures h.brkMin <= newBrk <= h.brkMax ==> r == (h.(brk := newBrk), None)
    ensures newBrk >= h.brkMin && newBrk > h.brkMax ==>
      && r.0.brk == newBrk
      && r.0.brkMax % pageSize == 0 && newBrk <= r.0.brkMax < newBrk + pageSize
      && r.1 == Some((h.brkMax, r.0.brkMax - h.brkMax))
  {
    if newBrk >= h.brkMin then
      if newBrk > h.brkMax then
        var newMax := RoundUp(newBrk, pageSize);
        (Heap(newBrk, h.brkMin, newMax), Some((h.brkMax, newMax - h.brkMax)))
      else (h.(brk := newBrk), None)
    else (h, None)
  }

  /** The regions in `mapped` lie end to end from `base` up to `top`. */
  ghost predicate Tiles(mapped: seq<(nat, nat)>, base: nat, top: nat)
    decreases |mapped|
  {
    if mapped == [] then base == top
    else
      var last := mapped[|mapped| - 1];
      last.0 + last.1 == top && last.1 > 0 && Tiles(mapped[..|mapped| - 1], base, last.0)
  }

  /** The user process's heap state (`crate::USER`). */
  class User {
    const pageSize: nat
    var heap: Heap
    /** What `map_new` was asked to map, in order. */
    ghost var mapped: seq<(nat, nat)>
    /** `brkMax` when the state was set up. */
    ghost const mapBase: nat

    ghost predicate Valid()
      reads this
    {
      && pageSize > 0
      && heap.brkMin <= heap.brk <= heap.brkMax < USIZE_LIMIT
      && mapBase <= heap.brkMax
      && Tiles(mapped, mapBase, heap.brkMax)
    }

    constructor (pageSize: nat, heap: Heap)
      requires pageSize > 0 && heap.brkMin <= heap.brk <= heap.brkMax < USIZE_LIMIT
      ensures Valid() && this.pageSize == pageSize && this.heap == heap && mapped == [] && mapBase == heap.brkMax
    {
      this.pageSize := pageSize;
      this.heap := heap;
      mapped := [];
      mapBase := heap.brkMax;
    }

    /** `brk`: move the break, mapping up to the next page boundary when it grows past `brkMax`. */
    method Brk(newBrk: nat) returns (r: nat)
      requires Valid() && newBrk < USIZE_LIMIT
      requires newBrk > heap.brkMax ==> RoundUp(newBrk, pageSize) < USIZE_LIMIT
      modifies this
      ensures Valid()
      ensures heap == BrkStep(old(heap), newBrk, pageSize).0 && r == heap.brk
      ensures BrkStep(old(heap), newBrk, pageSize).1.None? ==> mapped == old(mapped)
      ensures BrkStep(old(heap), newBrk, pageSize).1.Some? ==>
        mapped == old(mapped) + [BrkStep(old(heap), newBrk, pageSize).1.value]
    {
      if newBrk >= heap.brkMin {
        if newBrk > heap.brkMax {
          var oldMax := heap.brkMax;
          var newMax := RoundUp(newBrk, pageSize);
          mapped := mapped + [(oldMax, newMax - oldMax)];
          assert mapped[..|mapped| - 1] == old(mapped);
          heap := heap.(brkMax := newMax);
        }
        heap := heap.(brk := newBrk);
      }
      r := heap.brk;
    }
  }

  // ---------------------------------------------------------------------
  // mmap, mprotect and the handler

  /** `mmap`: a stub that maps nothing and returns 0. */
  function Mmap(addr: nat, length: nat, prot: int, flags: int, fd: int, offset: int): (r: nat)
    ensures r == 0
  {
    0
  }

  /** `mprotect`: a stub that returns 0. */
  function Mprotect(addr: nat, length: nat, prot: int): (r: int)
    ensures r == 0
  {
    0
  }

  /** The syscall numbers the handler knows (RISC-V/AArch64 Linux numbering). */
  datatype Syscall = SetTidAddress | WritevCall | BrkCall | MmapCall | MprotectCall | Ioctl | Close | Exit | Unknown

  function Route(n: int): (s: Syscall)
    ensures s == Unknown <==> n !in {96, 66, 214, 222, 226, 29, 57, 94}
  {
    if n == 96 then SetTidAddress
    else if n == 66 then WritevCall
    else if n == 214 then BrkCall
    else if n == 222 then MmapCall
    else if n == 226 then MprotectCall
    else if n == 29 then Ioctl
    else if n == 57 then Close
    else if n == 94 then Exit
    else Unknown
  }

  /** `unwrap_or_else(|e| -e)`: an error comes back as its negated code. */
  function Negated(r: Result<int, int>): int
  {
    match r
    case Success(v) => v
    case Failure(e) => -e
  }

  /**
   * `axmusl_syscall_handler`: the result of syscall `n` with arguments
   * `a0`..`a5`; `Panicked` for `exit` and for an unknown number. The
   * buffers and console outcomes stand for the memory at `a1` and the
   * console, as in `WritevLoop`.
   */
  method Handler(user: User, n: int, a0: int, a1: int, a2: int, a3: int, a4: int, a5: int,
                 iovs: seq<seq<byte>>, outcomes: seq<WriteOutcome>) returns (r: Run<int>)
    requires user.Valid() && IsIsize(a0) && IsIsize(a1) && IsIsize(a2) && IsIsize(a3) && IsIsize(a4) && IsIsize(a5)
    requires Route(n) == WritevCall ==>
      |outcomes| == |iovs| && (ToI32(a2) >= 0 ==> ToI32(a2) == |iovs|) && Honest(iovs, outcomes)
      && SumLens(iovs) < ISIZE_LIMIT
    requires Route(n) == BrkCall && ToUsize(a0) > user.heap.brkMax ==> RoundUp(ToUsize(a0), user.pageSize) < USIZE_LIMIT
    modifies user
    ensures user.Valid()
    ensures Route(n) != BrkCall ==> user.heap == old(user.heap) && user.mapped == old(user.mapped)
    ensures Route(n) == BrkCall ==> user.heap == BrkStep(old(user.heap), ToUsize(a0), user.pageSize).0
    ensures Route(n) == BrkCall && BrkStep(old(user.heap), ToUsize(a0), user.pageSize).1.None? ==>
      user.mapped == old(user.mapped)
    ensures Route(n) == BrkCall && BrkStep(old(user.heap), ToUsize(a0), user.pageSize).1.Some? ==>
      user.mapped == old(user.mapped) + [BrkStep(old(user.heap), ToUsize(a0), user.pageSize).1.value]
    ensures r.Panicked? <==> Route(n) == Exit || Route(n) == Unknown
    ensures Route(n) == SetTidAddress ==> r == Returned(1)
    ensures Route(n) == WritevCall ==> r == Returned(Negated(Writev(ToI32(a0), ToI32(a2), iovs, outcomes)))
    ensures Route(n) == BrkCall ==> r == Returned(ToIsize(user.heap.brk))
    ensures Route(n) in {MmapCall, MprotectCall, Close} ==> r == Returned(0)
    ensures Route(n) == Ioctl ==> r == Returned(-(EINVAL as int))
  {
    match Route(n) {
      case SetTidAddress => r := Returned(1);
      case WritevCall =>
        var res, _ := WritevLoop(ToI32(a0), ToI32(a2), iovs, outcomes);
        r := Returned(Negated(res));
      case BrkCall =>
        var b := user.Brk(ToUsize(a0));
        r := Returned(ToIsize(b));
      case MmapCall => r := Returned(ToIsize(Mmap(ToUsize(a0), ToUsize(a1), ToI32(a2), ToI32(a3), ToI32(a4), a5)));
      case MprotectCall => r := Returned(Mprotect(ToUsize(a0), ToUsize(a1), ToI32(a2)));
      case Ioctl => r := Returned(-(EINVAL as int));
      case Close => r := Returned(0);
      case Exit => r := Panicked;
      case Unknown => r := Panicked;
    }
  }
}
