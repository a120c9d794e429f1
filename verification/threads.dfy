/** The application signals shared by the controller's threads
    (echo-app/utils/common.hpp). Each is a single bit of a 32-bit word. */
module Signals {
  import opened Power

  /** `std::atomic<int>` holds 32 bits. */
  const Width: nat := 32

  const ReadThread: nat := 0x0001
  const UnixRead: nat := 0x0002
  const SctpWrite: nat := 0x0004
  const UnixWrite: nat := 0x0008
  const SchedStart: nat := 0x0010
  const SchedEnd: nat := 0x0020
  const AppUnixWrite: nat := 0x0040
  const Terminate: nat := 0x8000

  /** The bit each signal occupies. */
  lemma SignalBits()
    ensures ReadThread == Pow(2, 0) && UnixRead == Pow(2, 1) && SctpWrite == Pow(2, 2)
    ensures UnixWrite == Pow(2, 3) && SchedStart == Pow(2, 4) && SchedEnd == Pow(2, 5)
    ensures AppUnixWrite == Pow(2, 6) && Terminate == Pow(2, 15)
  {
    assert Pow(2, 6) == 64;
    assert Pow(2, 15) == 0x8000 by {
      PowAdd(2, 8, 7);
      assert Pow(2, 8) == 256 && Pow(2, 7) == 128;
    }
  }
}

/** The scheduler's handle on one worker thread (thread-controls.cpp) as an
    abstract record: its signal word, whether it is still valid, and the
    execution indices it has been handed. The mutex, the condition variable
    and the thread and process handles are not modelled. */
module ThreadControl {
  import opened Power
  import opened Bits
  import opened LittleEndian
  import opened Signals

  datatype Control = Control(signal: nat, valid: bool, idxs: seq<nat>)

  /** `ThreadControls()`: valid, signal 0, no indices. */
  const Fresh: Control := Control(0, true, [])

  /** `is_stopped()`: `(signal & SCHED_END) == SCHED_END`. */
  predicate Stopped(c: Control)
  {
    And(c.signal, SchedEnd, Width) == SchedEnd
  }

  /** The predicate `wait()` blocks on: `(signal & SCHED_START) == SCHED_START`. */
  predicate Started(c: Control)
  {
    And(c.signal, SchedStart, Width) == SchedStart
  }

  /** Stopped and started are the SCHED_END and SCHED_START bits. */
  lemma FlagBits(c: Control)
    ensures Stopped(c) <==> BitsOf(c.signal, Width)[5]
    ensures Started(c) <==> BitsOf(c.signal, Width)[4]
    ensures And(c.signal, SchedEnd, Width) == 0 <==> !Stopped(c)
  {
    SignalBits();
    FlagTest(c.signal, 5, Width);
    FlagTest(c.signal, 4, Width);
  }

  /** A fresh control is valid, not stopped and not started. */
  lemma FreshState()
    ensures Fresh.valid && Fresh.signal == 0 && Fresh.idxs == []
    ensures !Stopped(Fresh) && !Started(Fresh)
  {
    FlagBits(Fresh);
    ZeroBits(Width, 4);
    ZeroBits(Width, 5);
  }

  /** `notify(idx)`: record the index, then `fetch_or(SCHED_START)`. */
  function Notify(c: Control, idx: nat): (r: Control)
    ensures r.idxs == c.idxs + [idx] && r.valid == c.valid && r.signal < Pow(2, Width)
    ensures forall i :: 0 <= i < Width ==> BitsOf(r.signal, Width)[i] == (i == 4 || BitsOf(c.signal, Width)[i])
  {
    var r := Control(Or(c.signal, SchedStart, Width), c.valid, c.idxs + [idx]);
    SignalBits();
    forall i | 0 <= i < Width
      ensures BitsOf(r.signal, Width)[i] == (i == 4 || BitsOf(c.signal, Width)[i])
    {
      FlagSet(c.signal, 4, Width, i);
    }
    r
  }

  /** After `notify` the waiting thread may proceed, and whether it is
      stopped has not changed. */
  lemma NotifyFlags(c: Control, idx: nat)
    ensures Started(Notify(c, idx))
    ensures Stopped(Notify(c, idx)) <==> Stopped(c)
  {
    FlagBits(c);
    FlagBits(Notify(c, idx));
  }

  /** The signal word after `invalidate`: SCHED_END is added only when it was
      clear (the thread is cancelled and its process killed at that point). */
  function EndSignal(s: nat): nat
  {
    if And(s, SchedEnd, Width) == 0 then Or(s, SchedEnd, Width) else s
  }

  /** The control after `invalidate()`: SCHED_END set, no longer valid, the
      recorded indices kept. */
  function Invalidated(c: Control): (r: Control)
    ensures Stopped(r) && !r.valid && r.idxs == c.idxs
    ensures Stopped(c) ==> r.signal == c.signal
    ensures !Stopped(c) ==> forall i :: 0 <= i < Width ==> BitsOf(r.signal, Width)[i] == (i == 5 || BitsOf(c.signal, Width)[i])
  {
    var r := Control(EndSignal(c.signal), false, c.idxs);
    EndSignalBits(c.signal);
    FlagBits(c);
    FlagBits(r);
    r
  }

  lemma EndSignalBits(s: nat)
    ensures And(s, SchedEnd, Width) == 0 ==>
              forall i :: 0 <= i < Width ==> BitsOf(EndSignal(s), Width)[i] == (i == 5 || BitsOf(s, Width)[i])
    ensures BitsOf(EndSignal(s), Width)[5]
  {
    SignalBits();
    FlagTest(s, 5, Width);
    forall i | 0 <= i < Width
      ensures BitsOf(Or(s, SchedEnd, Width), Width)[i] == (i == 5 || BitsOf(s, Width)[i])
    {
      FlagSet(s, 5, Width, i);
    }
  }

  /** A second `invalidate` changes nothing further. */
  lemma InvalidateTwice(c: Control)
    ensures Invalidated(Invalidated(c)) == Invalidated(c)
  {
  }

  /** `invalidate()` with the indices copied element by element: the control
      afterwards and the indices it had been handed. */
  function Invalidate(c: Control): (r: (Control, seq<nat>))
    ensures r.0 == Invalidated(c) && r.1 == c.idxs
  {
    (Invalidated(c), c.idxs)
  }

  /** `notify` with each index in turn. */
  function NotifyAll(c: Control, more: seq<nat>): Control
    decreases |more|
  {
    if |more| == 0 then c else NotifyAll(Notify(c, more[0]), more[1..])
  }

  /** Every index a thread is handed comes back, in order, from the corrected
      `invalidate`, and handing indices over leaves the thread as valid as it
      was. */
  lemma HandedBack(c: Control, more: seq<nat>)
    ensures Invalidate(NotifyAll(c, more)).1 == c.idxs + more
    ensures NotifyAll(c, more).valid == c.valid
  {
    NotifyAllKeeps(c, more);
  }

  /** Handing indices over appends them and keeps validity. */
  lemma {:induction false} NotifyAllKeeps(c: Control, more: seq<nat>)
    ensures NotifyAll(c, more).idxs == c.idxs + more
    ensures NotifyAll(c, more).valid == c.valid
    decreases |more|
  {
    if |more| > 0 {
      var n := Notify(c, more[0]);
      assert n.idxs == c.idxs + [more[0]] && n.valid == c.valid;
      NotifyAllKeeps(n, more[1..]);
      assert NotifyAll(c, more) == NotifyAll(n, more[1..]);
      assert c.idxs + [more[0]] + more[1..] == c.idxs + more;
    }
  }

  // ---------------------------------------------------------------------------
  // The copy as written: `memcpy(tmp.data(), idxs.data(), idxs.size())`
  // copies size() BYTES of the 8-byte indices into a zeroed vector.

  function Zeros(k: nat): (z: seq<Byte>)
    ensures |z| == k && forall i :: 0 <= i < k ==> z[i] == 0
  {
    seq(k, i => 0)
  }

  /** The memory behind a vector of 64-bit indices. */
  function Flat(xs: seq<nat>): (bs: seq<Byte>)
    ensures |bs| == 8 * |xs|
  {
    if |xs| == 0 then [] else LEBytes(xs[0], 8) + Flat(xs[1..])
  }

  /** The vector `invalidate` returns as written: the first `|xs|` bytes of the
      indices' memory, the rest of the vector left zero. */
  function CopyBytes(xs: seq<nat>): (r: seq<nat>)
    ensures |r| == |xs|
  {
    var n := |xs|;
    var buf := Flat(xs)[..n] + Zeros(7 * n);
    seq(n, j requires 0 <= j < n => LE(buf[8 * j .. 8 * j + 8]))
  }

  function Min(a: nat, b: nat): nat
  {
    if a <= b then a else b
  }

  /** `invalidate()` as written: entry j of the returned vector holds the bytes
      of index j that fall inside the first `|idxs|` bytes copied, so it is
      index j reduced modulo 256 to the number of those bytes, and 0 once
      there are none. */
  function InvalidateAsWritten(c: Control): (r: (Control, seq<nat>))
    ensures r.0 == Invalidated(c) && |r.1| == |c.idxs|
    ensures forall j :: 0 <= j < |c.idxs| && 8 * j < |c.idxs| ==>
              r.1[j] == c.idxs[j] % ByteRange(Min(8, |c.idxs| - 8 * j))
    ensures forall j :: 0 <= j < |c.idxs| && 8 * j >= |c.idxs| ==> r.1[j] == 0
  {
    forall j | 0 <= j < |c.idxs|
      ensures CopyBytes(c.idxs)[j] == if 8 * j < |c.idxs| then c.idxs[j] % ByteRange(Min(8, |c.idxs| - 8 * j)) else 0
    {
      if 8 * j < |c.idxs| {
        CopyHead(c.idxs, j);
      } else {
        CopyTail(c.idxs, j);
      }
    }
    (Invalidated(c), CopyBytes(c.idxs))
  }

  /** Index j occupies bytes 8j to 8j+7 of the vector's memory. */
  lemma {:induction false} FlatAt(xs: seq<nat>, j: nat)
    requires j < |xs|
    ensures Flat(xs)[8 * j .. 8 * j + 8] == LEBytes(xs[j], 8)
    decreases j
  {
    var head, tail := LEBytes(xs[0], 8), Flat(xs[1..]);
    assert Flat(xs) == head + tail;
    if j > 0 {
      FlatAt(xs[1..], j - 1);
      var k := 8 * (j - 1);
      assert 8 * j == k + 8;
      SliceShift(head, tail, k);
    }
  }

  /** A slice past the first part of a concatenation is a slice of the second. */
  lemma SliceShift(a: seq<Byte>, b: seq<Byte>, k: nat)
    requires |a| == 8 && k + 8 <= |b|
    ensures (a + b)[k + 8 .. k + 16] == b[k .. k + 8]
  {
  }

  /** An entry starting inside the copied bytes keeps the low bytes of its
      index that were copied. */
  lemma CopyHead(xs: seq<nat>, j: nat)
    requires j < |xs| && 8 * j < |xs|
    ensures CopyBytes(xs)[j] == xs[j] % ByteRange(Min(8, |xs| - 8 * j))
  {
    var n := |xs|;
    var m := Min(8, n - 8 * j);
    var buf := Flat(xs)[..n] + Zeros(7 * n);
    var w := buf[8 * j .. 8 * j + 8];
    var bs := LEBytes(xs[j], 8);
    FlatAt(xs, j);
    assert forall i :: 0 <= i < m ==> w[i] == bs[i] by {
      forall i | 0 <= i < m
        ensures w[i] == bs[i]
      {
        assert w[i] == Flat(xs)[8 * j + i];
        assert Flat(xs)[8 * j + i] == Flat(xs)[8 * j .. 8 * j + 8][i];
      }
    }
    assert forall i :: m <= i < 8 ==> w[i] == 0 by {
      forall i | m <= i < 8
        ensures w[i] == 0
      {
        assert w[i] == buf[8 * j + i];
      }
    }
    LETrailingZeros(w, m);
    assert w[..m] == bs[..m];
    LEBytesPrefix(xs[j], 8, m);
  }

  /** Every entry whose 8 bytes lie beyond the first `|xs|` bytes comes back
      as 0. */
  lemma CopyTail(xs: seq<nat>, j: nat)
    requires j < |xs| && 8 * j >= |xs|
    ensures CopyBytes(xs)[j] == 0
  {
    var n := |xs|;
    var buf := Flat(xs)[..n] + Zeros(7 * n);
    var w := buf[8 * j .. 8 * j + 8];
    assert forall i :: 0 <= i < 8 ==> w[i] == buf[8 * j + i];
    LETrailingZeros(w, 0);
    assert w[..0] == [];
  }

  /** With two to eight recorded indices, the second of which is not 0, the
      vector returned as written differs from the recorded indices. */
  lemma InvalidateLosesIndices(c: Control)
    requires 2 <= |c.idxs| <= 8 && c.idxs[1] != 0
    ensures InvalidateAsWritten(c).1 != c.idxs
  {
    CopyTail(c.idxs, 1);
  }

  /** For instance a thread handed the indices 5 and 7. */
  lemma InvalidateFiveSeven()
    ensures var c := Notify(Notify(Fresh, 5), 7);
            c.idxs == [5, 7] && InvalidateAsWritten(c).1[1] == 0 && Invalidate(c).1 == [5, 7]
  {
    var c := Notify(Notify(Fresh, 5), 7);
    assert c.idxs == [5, 7];
    CopyTail(c.idxs, 1);
  }
}
