/**
 Pipes (pipe.c): a ring of 512 bytes with 32-bit counters that wrap, and the
 sleeping and waking of the processes at its two ends. Each method is what one
 process does between taking the pipe's lock and giving it up.
 */
module Pipes {
  import opened Base
  import opened Processes

  const PIPESIZE: nat := 512

  /** Where a process is after its turn in pipewrite: finished, refused, or asleep with `at` bytes written. */
  datatype Wrote = Wrote(n: nat) | Refused | WaitsAt(at: nat)

  /** Where a process is after its turn in piperead. */
  datatype Got = Got(n: nat) | Killed | Waits

  /** Somebody sleeps on the address. */
  ghost predicate SomeoneOn(t: Table, a: nat) {
    exists i :: 0 <= i < |t| && SleepsOn(t[i], Address(a))
  }

  /** Counters modulo 2^32 tell full from empty, and find the right byte. */
  lemma Wraps(got: nat, put: nat)
    requires got <= put <= got + PIPESIZE
    ensures put % UINT == (got % UINT + PIPESIZE) % UINT <==> put == got + PIPESIZE
    ensures got % UINT == put % UINT <==> got == put
    ensures got % UINT % PIPESIZE == got % PIPESIZE && put % UINT % PIPESIZE == put % PIPESIZE
    ensures (put % UINT + 1) % UINT == (put + 1) % UINT && (got % UINT + 1) % UINT == (got + 1) % UINT
  {
    var q, g := put / UINT, got / UINT;
    assert put == q * UINT + put % UINT && got == g * UINT + got % UINT;
    assert put % UINT % PIPESIZE == put % PIPESIZE by { ModMod(put); }
    assert got % UINT % PIPESIZE == got % PIPESIZE by { ModMod(got); }
  }

  lemma ModMod(x: nat)
    ensures x % UINT % PIPESIZE == x % PIPESIZE
  {
  }

  lemma RingSlot(a: nat, b: nat)
    requires a < b < a + PIPESIZE
    ensures a % PIPESIZE != b % PIPESIZE
  {
  }

  /** The unread bytes lie in the ring, byte `k` of the stream at index `k % PIPESIZE`. */
  ghost predicate Holds(data: seq<byte>, got: seq<byte>, put: seq<byte>) {
    && |data| == PIPESIZE && |got| <= |put| <= |got| + PIPESIZE && got == put[..|got|]
    && forall k | |got| <= k < |put| :: data[k % PIPESIZE] == put[k]
  }

  lemma HoldsPut(data: seq<byte>, got: seq<byte>, put: seq<byte>, b: byte)
    requires Holds(data, got, put) && |put| < |got| + PIPESIZE
    ensures Holds(data[|put| % PIPESIZE := b], got, put + [b])
  {
    forall k | |got| <= k < |put| ensures k % PIPESIZE != |put| % PIPESIZE {
      RingSlot(k, |put|);
    }
  }

  lemma HoldsGot(data: seq<byte>, got: seq<byte>, put: seq<byte>)
    requires Holds(data, got, put) && |got| < |put|
    ensures Holds(data, got + [data[|got| % PIPESIZE]], put)
  {
  }

  class Pipe {
    const k: Kernel
    const nreadAddr: nat    // &p->nread, where readers sleep
    const nwriteAddr: nat   // &p->nwrite, where writers sleep
    const data: array<byte>
    var nread: nat
    var nwrite: nat
    var readopen: bool
    var writeopen: bool
    ghost var put: seq<byte>   // everything written so far
    ghost var got: seq<byte>   // everything read so far

    ghost predicate Valid()
      reads this, data
    {
      && nreadAddr != nwriteAddr && data.Length == PIPESIZE && Holds(data[..], got, put)
      && nread == |got| % UINT && nwrite == |put| % UINT
    }

    /** A writer sleeps only while the ring is full and can be read from. */
    ghost predicate WritersAwake()
      reads this, k
    {
      SomeoneOn(k.proc, nwriteAddr) ==> |put| == |got| + PIPESIZE && readopen
    }

    /** A reader sleeps only while the ring is empty and can be written to. */
    ghost predicate ReadersAwake()
      reads this, k
    {
      SomeoneOn(k.proc, nreadAddr) ==> got == put && writeopen
    }

    /** A turn of the current process that writes `n` bytes will leave a reader asleep beside a full ring. */
    ghost predicate LosesWakeup(n: int)
      reads this, k
    {
      SomeoneOn(k.proc, nreadAddr) && n > PIPESIZE && (!readopen || (0 <= k.cur < |k.proc| && k.proc[k.cur].killed))
    }

    /** pipealloc, for a page at which nobody sleeps */
    constructor (k: Kernel, nreadAddr: nat, nwriteAddr: nat)
      requires nreadAddr != nwriteAddr && !SomeoneOn(k.proc, nreadAddr) && !SomeoneOn(k.proc, nwriteAddr)
      ensures Valid() && WritersAwake() && ReadersAwake() && got == put == [] && readopen && writeopen && this.k == k
      ensures this.nreadAddr == nreadAddr && this.nwriteAddr == nwriteAddr && fresh(data)
    {
      this.k, this.nreadAddr, this.nwriteAddr := k, nreadAddr, nwriteAddr;
      data := new byte[PIPESIZE](i => 0);
      nread, nwrite, readopen, writeopen, put, got := 0, 0, true, true, [], [];
    }

    /** Other processes' steps add no sleeper here; they keep both properties. */
    twostate lemma OthersKeep()
      requires unchanged(this)
      requires SomeoneOn(k.proc, nreadAddr) ==> old(SomeoneOn(k.proc, nreadAddr))
      requires SomeoneOn(k.proc, nwriteAddr) ==> old(SomeoneOn(k.proc, nwriteAddr))
      ensures (old(WritersAwake()) ==> WritersAwake()) && (old(ReadersAwake()) ==> ReadersAwake())
    {
    }

    /** The ring is full. */
    predicate Full()
      requires Valid()
      reads this, data
      ensures (Full() <==> |put| == |got| + PIPESIZE) && |put| <= |got| + PIPESIZE
    {
      Wraps(|got|, |put|);
      nwrite == (nread + PIPESIZE) % UINT
    }

    predicate Empty()
      requires Valid()
      reads this, data
      ensures Empty() <==> got == put
    {
      Wraps(|got|, |put|);
      nread == nwrite
    }

    /** `p->data[p->nwrite++ % PIPESIZE] = b` */
    method Put(b: byte)
      requires Valid() && !Full()
      modifies this`nwrite, this`put, data
      ensures Valid() && put == old(put) + [b]
    {
      Wraps(|got|, |put|);
      HoldsPut(data[..], got, put, b);
      data[nwrite % PIPESIZE] := b;
      nwrite := (nwrite + 1) % UINT;
      put := put + [b];
    }

    /** `p->data[p->nread++ % PIPESIZE]` */
    method Get() returns (b: byte)
      requires Valid() && !Empty()
      modifies this`nread, this`got
      ensures Valid() && |old(got)| < |put| && b == put[|old(got)|] && got == old(got) + [b]
    {
      Wraps(|got|, |put|);
      HoldsGot(data[..], got, put);
      b := data[nread % PIPESIZE];
      nread := (nread + 1) % UINT;
      got := got + [b];
    }

    /**
     The current process's turn in pipewrite, which has written the first `i`
     bytes of `src` before it last slept. The writer's side stays awake when it
     should; the reader's side does, unless the writer has more than a
     ringful to write, is killed (or the pipe cannot be read), and a reader sleeps:
     then it fills the ring and leaves without waking the reader. The order of the
     bytes holds in every case.
     */
    method Write(src: seq<byte>, i0: nat) returns (r: Wrote)
      requires Valid() && k.Valid() && k.cur != -1 && i0 <= |src|
      modifies this`nwrite, this`put, data, k`proc, k`cur
      ensures Valid() && k.Valid() && (old(WritersAwake()) ==> WritersAwake())
      ensures old(ReadersAwake()) ==> (ReadersAwake() <==> !old(LosesWakeup(|src| - i0)))
      ensures !r.Refused? ==> ReadersAwake()
      ensures |old(put)| <= |put| && i0 + |put| - |old(put)| <= |src|
        && put == old(put) + src[i0..i0 + |put| - |old(put)|]
      ensures r.Wrote? ==> r.n == |src| && |put| - |old(put)| == |src| - i0 && k.cur == old(k.cur)
      ensures r.WaitsAt? ==> r.at == i0 + |put| - |old(put)| < |src| && Full() && readopen && k.cur == -1
      ensures r.Refused? ==> Full() && k.cur == old(k.cur) && k.proc == old(k.proc)
      ensures r.Refused? ==>
        0 <= k.cur < |k.proc| && (!readopen || k.proc[k.cur].killed) && i0 + |put| - |old(put)| < |src|
      ensures r.Wrote? ==> k.proc == Woken(old(k.proc), Address(nreadAddr))
      ensures r.WaitsAt? ==> AsleepOn(Woken(old(k.proc), Address(nreadAddr)), k.proc, old(k.cur), nwriteAddr)
      ensures r.WaitsAt? ==> 0 <= old(k.cur) < |old(k.proc)| && !old(k.proc[k.cur].killed)
    {
      hide Good, Holds, SomeoneOn;
      CurrentFacts(k);
      var i := i0;
      while i < |src|
        invariant i0 <= i <= |src| && Valid() && |put| == |old(put)| + i - i0 && put == old(put) + src[i0..i]
        invariant i > i0 ==> |old(put)| < |got| + PIPESIZE
        invariant k.proc == old(k.proc) && k.cur == old(k.cur)
      {
        if Full() {
          if !readopen || k.proc[k.cur].killed {
            return Refused;
          }
          ghost var t0 := k.proc;
          k.Wakeup(Address(nreadAddr));
          ghost var t1 := k.proc;
          k.Sleep(Address(nwriteAddr));
          SleepersAfter(t0, t1, k.proc, old(k.cur), nreadAddr, nwriteAddr);
          return WaitsAt(i);
        }
        Put(src[i]);
        i := i + 1;
      }
      PutBound();
      ghost var t0 := k.proc;
      k.Wakeup(Address(nreadAddr));
      WokenSleepers(t0, nreadAddr, nwriteAddr);
      r := Wrote(|src|);
    }

    /** The current process's turn in piperead for at most `n` bytes, before which it may have slept. */
    method Read(n: nat, dst: array<byte>) returns (r: Got)
      requires Valid() && k.Valid() && k.cur != -1 && n <= dst.Length && dst != data
      modifies this`nread, this`got, dst, k`proc, k`cur
      ensures Valid() && k.Valid() && (old(WritersAwake()) ==> WritersAwake())
        && (old(ReadersAwake()) ==> ReadersAwake())
      ensures r.Got? ==>
        r.n == Min(n, |put| - |old(got)|) <= dst.Length && dst[..r.n] == put[|old(got)|..|old(got)| + r.n]
      ensures r.Got? ==> got == old(got) + dst[..r.n] && (|old(got)| < |put| || !writeopen)
      ensures r.Got? ==> k.proc == Woken(old(k.proc), Address(nwriteAddr)) && k.cur == old(k.cur)
      ensures !r.Got? ==>
        got == old(got) == put && writeopen && dst[..] == old(dst[..]) && 0 <= old(k.cur) < |old(k.proc)|
      ensures r.Killed? ==> old(k.proc[k.cur].killed) && k.proc == old(k.proc) && k.cur == old(k.cur)
      ensures r.Waits? ==>
        !old(k.proc[k.cur].killed) && AsleepOn(old(k.proc), k.proc, old(k.cur), nreadAddr) && k.cur == -1
    {
      hide Good, Holds, SomeoneOn;
      CurrentFacts(k);
      PutBound();
      ghost var t0 := k.proc;
      if Empty() && writeopen {
        if k.proc[k.cur].killed {
          return Killed;
        }
        k.Sleep(Address(nreadAddr));
        OneMoreSleeper(t0, k.proc, old(k.cur), nreadAddr, nwriteAddr);
        return Waits;
      }
      var i := 0;
      while i < n
        invariant i <= n && Valid() && |got| == |old(got)| + i && |old(got)| + i <= |put| && got == put[..|got|]
        invariant dst[..i] == put[|old(got)|..|old(got)| + i] && k.proc == t0 && k.cur == old(k.cur)
      {
        if Empty() {
          break;
        }
        PutBound();
        ghost var d0 := dst[..i];
        var b := Get();
        dst[i] := b;
        assert dst[..i + 1] == d0 + [b];
        assert put[|old(got)|..|old(got)| + i + 1] == put[|old(got)|..|old(got)| + i] + [b];
        i := i + 1;
      }
      PutBound();
      k.Wakeup(Address(nwriteAddr));
      WokenSleepers(t0, nwriteAddr, nreadAddr);
      r := Got(i);
    }

    lemma PutBound()
      requires Valid()
      ensures |got| <= |put| <= |got| + PIPESIZE && got == put[..|got|]
    {
    }

    /** pipeclose; the page is freed when both ends are closed. */
    method Close(writable: bool) returns (free: bool)
      requires Valid() && k.Valid()
      requires if writable then writeopen else readopen
      modifies this`readopen, this`writeopen, k`proc
      ensures Valid() && k.Valid() && (old(WritersAwake()) ==> WritersAwake())
        && (old(ReadersAwake()) ==> ReadersAwake())
      ensures readopen == (old(readopen) && writable) && writeopen == (old(writeopen) && !writable)
      ensures free <==> !readopen && !writeopen
      ensures k.proc == Woken(old(k.proc), Address(if writable then nreadAddr else nwriteAddr))
      ensures !SomeoneOn(k.proc, if writable then nreadAddr else nwriteAddr)
    {
      hide Good, Holds, SomeoneOn;
      ghost var t0 := k.proc;
      if writable {
        writeopen := false;
        k.Wakeup(Address(nreadAddr));
        WokenSleepers(t0, nreadAddr, nwriteAddr);
      } else {
        readopen := false;
        k.Wakeup(Address(nwriteAddr));
        WokenSleepers(t0, nwriteAddr, nreadAddr);
      }
      free := !readopen && !writeopen;
    }
  }

  /** For example: a killed writer with 513 bytes, before an empty pipe and a sleeping reader. */
  method KilledWriter(p: Pipe, src: seq<byte>) returns (r: Wrote)
    requires p.Valid() && p.k.Valid() && p.k.cur != -1 && p.WritersAwake() && p.ReadersAwake()
    requires SomeoneOn(p.k.proc, p.nreadAddr) && p.k.proc[p.k.cur].killed && |src| == 513
    modifies p`nwrite, p`put, p.data, p.k`proc, p.k`cur
    ensures r.Refused? && !p.ReadersAwake() && p.Valid() && p.Full()
  {
    hide Good, SomeoneOn, AsleepOn;
    CurrentFacts(p.k);
    r := p.Write(src, 0);
  }

  /** Process `c` has gone to sleep on address `a`, and nothing else has changed. */
  ghost predicate AsleepOn(t: Table, t1: Table, c: int, a: nat) {
    0 <= c < |t| && t1 == t[c := t[c].(state := Sleeping, chan := Address(a))]
  }

  lemma CurrentFacts(k: Kernel)
    requires k.Valid() && k.cur != -1
    ensures 0 <= k.cur < |k.proc| == NPROC && k.proc[k.cur].state.Running?
  {
  }

  lemma WokenSleepers(t: Table, a: nat, b: nat)
    requires a != b
    ensures !SomeoneOn(Woken(t, Address(a)), a) && (SomeoneOn(Woken(t, Address(a)), b) <==> SomeoneOn(t, b))
  {
    var t1 := Woken(t, Address(a));
    forall i | 0 <= i < |t| ensures SleepsOn(t1[i], Address(b)) <==> SleepsOn(t[i], Address(b)) {
    }
  }

  lemma OneMoreSleeper(t: Table, t1: Table, c: int, a: nat, b: nat)
    requires a != b && AsleepOn(t, t1, c, a) && t[c].state.Running?
    ensures SomeoneOn(t1, a) && (SomeoneOn(t1, b) <==> SomeoneOn(t, b))
  {
    assert SleepsOn(t1[c], Address(a));
    forall i | 0 <= i < |t| ensures SleepsOn(t1[i], Address(b)) <==> SleepsOn(t[i], Address(b)) {
    }
  }

  lemma SleepersAfter(t0: Table, t1: Table, t2: Table, c: int, a: nat, b: nat)
    requires a != b && t1 == Woken(t0, Address(a)) && AsleepOn(t1, t2, c, b) && t0[c].state.Running?
    ensures !SomeoneOn(t2, a) && SomeoneOn(t2, b)
  {
    WokenSleepers(t0, a, b);
    OneMoreSleeper(t1, t2, c, b, a);
  }
}
