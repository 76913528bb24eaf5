/** The disk as sectors of 512 bytes, reached one command at a time; any command may fail. */
module Disk {
  import opened Bytes

  const SECTOR: nat := 512

  type Sector = s: seq<byte> | |s| == 512 witness seq(512, i => 0)

  ghost predicate InRange(lbas: seq<nat>, n: nat)
  {
    forall i :: 0 <= i < |lbas| ==> lbas[i] < n
  }

  /** The bytes of the listed sectors, in order. */
  function Flat(d: seq<Sector>, lbas: seq<nat>): (s: seq<byte>)
    requires InRange(lbas, |d|)
    ensures |s| == SECTOR * |lbas|
  {
    if lbas == [] then [] else d[lbas[0]] + Flat(d, lbas[1..])
  }

  lemma {:induction false} FlatAppend(d: seq<Sector>, a: seq<nat>, b: seq<nat>)
    requires InRange(a, |d|) && InRange(b, |d|)
    ensures InRange(a + b, |d|) && Flat(d, a + b) == Flat(d, a) + Flat(d, b)
  {
    if a == [] { assert a + b == b; }
    else {
      assert (a + b)[1..] == a[1..] + b;
      FlatAppend(d, a[1..], b);
    }
  }

  /** Contents depend only on the sectors listed. */
  lemma {:induction false} FlatSame(d: seq<Sector>, e: seq<Sector>, lbas: seq<nat>)
    requires |d| == |e| && InRange(lbas, |d|)
    requires forall i :: 0 <= i < |lbas| ==> d[lbas[i]] == e[lbas[i]]
    ensures Flat(d, lbas) == Flat(e, lbas)
  {
    if lbas != [] {
      forall i | 0 <= i < |lbas[1..]| ensures d[lbas[1..][i]] == e[lbas[1..][i]] { assert lbas[1..][i] == lbas[i + 1]; }
      FlatSame(d, e, lbas[1..]);
    }
  }

  /** Consecutive sector numbers. */
  function Span(lba: nat, n: nat): (r: seq<nat>)
    ensures |r| == n && forall i :: 0 <= i < n ==> r[i] == lba + i
  {
    seq(n, i requires 0 <= i => lba + i)
  }

  class Drive {
    var sectors: seq<Sector>
    var clock: nat
    /** Whether the k-th command times out or reports an error. */
    const fault: nat -> bool

    constructor (initial: seq<Sector>, schedule: nat -> bool)
      ensures sectors == initial && fault == schedule && clock == 0
    {
      sectors, fault, clock := initial, schedule, 0;
    }

    ghost predicate Working() { forall k :: !fault(k) }

    method Read(lba: nat, count: nat) returns (ok: bool, data: seq<byte>)
      modifies this`clock
      ensures ok ==> count > 0 && lba + count <= |sectors| && data == Flat(sectors, Span(lba, count))
      ensures Working() ==> (ok <==> count > 0 && lba + count <= |sectors|)
    {
      data := [];
      if count == 0 { return false, data; }
      for s := 0 to count
        invariant lba + s <= |sectors| || s == 0
        invariant InRange(Span(lba, s), |sectors|) && data == Flat(sectors, Span(lba, s))
      {
        var failed := fault(clock);
        clock := clock + 1;
        if failed || lba + s >= |sectors| { return false, data; }
        FlatAppend(sectors, Span(lba, s), [lba + s]);
        assert Span(lba, s) + [lba + s] == Span(lba, s + 1);
        data := data + sectors[lba + s];
        assert Flat(sectors, [lba + s]) == sectors[lba + s] by { assert [lba + s][1..] == []; }
      }
      ok := true;
    }

    method Write(lba: nat, data: Sector) returns (ok: bool)
      modifies this`clock, this`sectors
      ensures ok ==> lba < |sectors| == |old(sectors)| && sectors == old(sectors)[lba := data]
      ensures !ok ==> sectors == old(sectors)
      ensures Working() ==> (ok <==> lba < |old(sectors)|)
    {
      ok := !fault(clock) && lba < |sectors|;
      clock := clock + 1;
      if ok { sectors := sectors[lba := data]; }
    }
  }
}
