/** In-band headers: how a block list is laid out in the bytes of the heap region. */
module HeapMemory {
  import opened Bytes
  import opened HeapList

  datatype Header = Header(size: nat, free: nat, next: nat)

  function HeaderAt(m: seq<byte>, off: nat): (h: Header)
    requires off + HEADER <= |m|
  {
    Header(Le32(m, off), Le32(m, off + 4), Le64(m, off + 8))
  }

  function NextAddr(bs: seq<Block>, i: nat): nat
  {
    if i + 1 < |bs| then bs[i + 1].addr else 0
  }

  function HeaderFor(bs: seq<Block>, i: nat): (h: Header)
    requires i < |bs|
  {
    Header(bs[i].size, if bs[i].free then 1 else 0, NextAddr(bs, i))
  }

  ghost predicate HeaderOk(m: seq<byte>, base: nat, bs: seq<Block>, i: nat)
    requires i < |bs|
  {
    && base <= bs[i].addr && bs[i].End() - base <= |m|
    && HeaderAt(m, bs[i].addr - base) == HeaderFor(bs, i)
  }

  /** Every block of the list has its header, with the link to its successor, in memory. */
  ghost predicate Represents(m: seq<byte>, base: nat, bs: seq<Block>)
  {
    forall i :: 0 <= i < |bs| ==> HeaderOk(m, base, bs, i)
  }

  /** Only the 16 bytes at offset off may differ. */
  ghost predicate HeaderWrite(m: seq<byte>, n: seq<byte>, off: int)
  {
    SameOutside(m, n, off, off + HEADER)
  }

  /** Every header that does not overlap the one at off reads as before. */
  ghost predicate OtherHeaders(m: seq<byte>, n: seq<byte>, off: int)
  {
    && |m| == |n|
    && forall o: nat :: o + HEADER <= |m| && (o + HEADER <= off || off + HEADER <= o) ==>
         HeaderAt(n, o) == HeaderAt(m, o)
  }

  lemma HeaderUntouched(m: seq<byte>, n: seq<byte>, lo: int, hi: int, off: nat)
    requires SameOutside(m, n, lo, hi) && off + HEADER <= |m|
    requires off + HEADER <= lo || hi <= off
    ensures HeaderAt(n, off) == HeaderAt(m, off)
  {
  }

  /** The list in memory is determined by the bytes: two lists with the same first block coincide. */
  lemma {:induction false} ListDetermined(m: seq<byte>, base: nat, bs: seq<Block>, cs: seq<Block>, i: nat)
    requires base > 0
    requires Represents(m, base, bs) && Represents(m, base, cs)
    requires 0 < |bs| && 0 < |cs| && bs[0].addr == cs[0].addr && i < |bs|
    ensures i < |cs| && bs[i] == cs[i]
  {
    hide HeaderAt, Mult8, Wrap32;
    if i > 0 {
      ListDetermined(m, base, bs, cs, i - 1);
      assert HeaderOk(m, base, bs, i - 1) && HeaderOk(m, base, cs, i - 1);
      assert HeaderOk(m, base, bs, i);
    }
    assert HeaderOk(m, base, bs, i) && HeaderOk(m, base, cs, i);
  }

  lemma ListUnique(m: seq<byte>, base: nat, bs: seq<Block>, cs: seq<Block>)
    requires base > 0
    requires Represents(m, base, bs) && Represents(m, base, cs)
    requires 0 < |bs| && 0 < |cs| && bs[0].addr == cs[0].addr
    ensures bs == cs
  {
    forall i | 0 <= i < |bs| ensures i < |cs| && bs[i] == cs[i] { ListDetermined(m, base, bs, cs, i); }
    ListDetermined(m, base, bs, cs, |bs| - 1);
    ListDetermined(m, base, cs, bs, |cs| - 1);
  }

  /** Replacing the header of block i in place re-represents a list that differs only there. */
  lemma HeaderReplaced(m: seq<byte>, n: seq<byte>, base: nat, end: nat, bs: seq<Block>, cs: seq<Block>, i: nat)
    requires Represents(m, base, bs) && Tiled(bs, base, end)
    requires |cs| == |bs| && i < |bs| && cs == bs[i := bs[i].(free := cs[i].free)]
    requires HeaderWrite(m, n, bs[i].addr - base)
    requires HeaderOk(n, base, cs, i)
    ensures Represents(n, base, cs)
  {
    hide HeaderAt, Mult8, Wrap32;
    AllOrdered(bs, base, end);
    forall k | 0 <= k < |cs| ensures HeaderOk(n, base, cs, k) {
      if k != i {
        assert HeaderOk(m, base, bs, k);
        HeaderUntouched(m, n, bs[i].addr - base, bs[i].addr - base + HEADER, bs[k].addr - base);
      }
    }
  }

  /** A header that moves to another index with its block and link, away from the bytes written. */
  lemma HeaderMoves(m: seq<byte>, n: seq<byte>, base: nat, bs: seq<Block>, o: nat, cs: seq<Block>, k: nat, lo: int,
                    hi: int)
    requires o < |bs| && k < |cs| && HeaderOk(m, base, bs, o) && cs[k] == bs[o] && NextAddr(cs, k) == NextAddr(bs, o)
    requires SameOutside(m, n, lo, hi) && (bs[o].addr - base + HEADER <= lo || hi <= bs[o].addr - base)
    ensures HeaderOk(n, base, cs, k)
  {
    hide HeaderAt;
    HeaderUntouched(m, n, lo, hi, bs[o].addr - base);
  }

  lemma MergeNext(bs: seq<Block>, i: nat, k: nat)
    requires i + 1 < |bs| && k < |bs| - 1 && k != i
    ensures var cs, o := Merge(bs, i), if k < i then k else k + 1; cs[k] == bs[o] && NextAddr(cs, k) == NextAddr(bs, o)
  {
    MergeShape(bs, i);
    hide Merge;
  }

  lemma MergeRepresented(m: seq<byte>, n: seq<byte>, base: nat, end: nat, bs: seq<Block>, i: nat)
    requires Represents(m, base, bs) && Tiled(bs, base, end)
    requires i + 1 < |bs|
    requires HeaderWrite(m, n, bs[i].addr - base)
    requires HeaderOk(n, base, Merge(bs, i), i)
    ensures Represents(n, base, Merge(bs, i))
  {
    var cs := Merge(bs, i);
    assert |cs| == |bs| - 1;
    hide HeaderAt, Merge, Tiled, SameOutside, Mult8, Wrap32;
    forall k | 0 <= k < |cs| ensures HeaderOk(n, base, cs, k) {
      if k != i {
        var o := if k < i then k else k + 1;
        assert HeaderOk(m, base, bs, o);
        MergeNext(bs, i, k);
        if o < i { Ordered(bs, base, end, o, i); } else { Ordered(bs, base, end, i, o); }
        HeaderMoves(m, n, base, bs, o, cs, k, bs[i].addr - base, bs[i].addr - base + HEADER);
      }
    }
  }

  lemma SplitNext(bs: seq<Block>, i: nat, size: nat, k: nat)
    requires i < |bs| && Splits(bs[i], size) && k < |bs| + 1 && k != i && k != i + 1
    ensures var cs, o := Split(bs, i, size), if k < i then k else k - 1;
      |cs| == |bs| + 1 && cs[k] == bs[o] && NextAddr(cs, k) == NextAddr(bs, o)
  {
    SplitShape(bs, i, size);
    hide Split;
  }

  lemma SplitRepresented(m: seq<byte>, n: seq<byte>, base: nat, end: nat, bs: seq<Block>, i: nat, size: nat)
    requires Represents(m, base, bs) && Tiled(bs, base, end)
    requires i < |bs| && Splits(bs[i], size)
    requires SameOutside(m, n, bs[i].addr - base, bs[i].End() - base)
    requires HeaderOk(n, base, Split(bs, i, size), i) && HeaderOk(n, base, Split(bs, i, size), i + 1)
    ensures Represents(n, base, Split(bs, i, size))
  {
    var cs := Split(bs, i, size);
    assert |cs| == |bs| + 1;
    hide HeaderAt, Split, Tiled, SameOutside, Mult8, Wrap32;
    forall k | 0 <= k < |cs| ensures HeaderOk(n, base, cs, k) {
      if k < i || k > i + 1 {
        var o := if k < i then k else k - 1;
        assert HeaderOk(m, base, bs, o);
        SplitNext(bs, i, size, k);
        if o < i { Ordered(bs, base, end, o, i); } else { Ordered(bs, base, end, i, o); }
        HeaderMoves(m, n, base, bs, o, cs, k, bs[i].addr - base, bs[i].End() - base);
      }
    }
  }

  /** Writing inside one payload leaves every header alone. */
  lemma PayloadWrite(m: seq<byte>, n: seq<byte>, base: nat, end: nat, bs: seq<Block>, i: nat)
    requires Represents(m, base, bs) && Tiled(bs, base, end)
    requires i < |bs| && SameOutside(m, n, bs[i].Payload() - base, bs[i].End() - base)
    ensures Represents(n, base, bs)
  {
    hide HeaderAt, Mult8, Wrap32;
    AllOrdered(bs, base, end);
    forall k | 0 <= k < |bs| ensures HeaderOk(n, base, bs, k) {
      assert HeaderOk(m, base, bs, k);
      HeaderUntouched(m, n, bs[i].Payload() - base, bs[i].End() - base, bs[k].addr - base);
    }
  }

  // ----- payloads -----

  ghost predicate SamePayload(m: seq<byte>, n: seq<byte>, base: nat, b: Block)
  {
    Same(m, n, b.Payload() - base, b.End() - base)
  }

  /** Every payload on the list, except that of block i, holds the same bytes. */
  ghost predicate OthersKept(m: seq<byte>, n: seq<byte>, base: nat, bs: seq<Block>, i: int)
  {
    forall k :: 0 <= k < |bs| && k != i ==> SamePayload(m, n, base, bs[k])
  }

  lemma OutsideKeepsOthers(m: seq<byte>, n: seq<byte>, base: nat, end: nat, bs: seq<Block>, i: nat)
    requires Tiled(bs, base, end) && i < |bs|
    requires SameOutside(m, n, bs[i].addr - base, bs[i].End() - base)
    ensures OthersKept(m, n, base, bs, i)
  {
    AllOrdered(bs, base, end);
  }

  lemma HeaderWriteKeepsAll(m: seq<byte>, n: seq<byte>, base: nat, end: nat, bs: seq<Block>, i: nat)
    requires Tiled(bs, base, end) && i < |bs|
    requires HeaderWrite(m, n, bs[i].addr - base)
    ensures OthersKept(m, n, base, bs, -1)
  {
    AllOrdered(bs, base, end);
  }

  lemma KeptTrans(m: seq<byte>, n: seq<byte>, o: seq<byte>, base: nat, bs: seq<Block>, i: int)
    requires OthersKept(m, n, base, bs, i) && OthersKept(n, o, base, bs, i)
    ensures OthersKept(m, o, base, bs, i)
  {
  }

  /** The payloads of the given blocks, except that of the block at address a, hold the same bytes. */
  ghost predicate UsedKept(m: seq<byte>, n: seq<byte>, base: nat, used: set<Block>, a: int)
  {
    |m| == |n| && Damaged(m, n, base, used, a) == {}
  }

  ghost function Damaged(m: seq<byte>, n: seq<byte>, base: nat, used: set<Block>, a: int): set<Block>
  {
    set b | b in used && b.addr != a && !SamePayload(m, n, base, b)
  }

  lemma Kept(m: seq<byte>, n: seq<byte>, base: nat, used: set<Block>, a: int, b: Block)
    requires UsedKept(m, n, base, used, a) && b in used && b.addr != a
    ensures SamePayload(m, n, base, b)
  {
    assert b !in Damaged(m, n, base, used, a);
  }

  lemma OthersMeansUsed(m: seq<byte>, n: seq<byte>, base: nat, bs: seq<Block>, i: int, a: int)
    requires |m| == |n| && OthersKept(m, n, base, bs, i)
    requires 0 <= i < |bs| ==> bs[i].free || bs[i].addr == a
    ensures UsedKept(m, n, base, UsedSet(bs), a)
  {
  }

  lemma NothingChanged(m: seq<byte>, base: nat, used: set<Block>)
    ensures UsedKept(m, m, base, used, -1)
  {
  }

  lemma AllMeansOthers(m: seq<byte>, n: seq<byte>, base: nat, used: set<Block>, a: int)
    requires UsedKept(m, n, base, used, -1)
    ensures UsedKept(m, n, base, used, a)
  {
  }

  /** Two changes in a row; the second may touch a block at address a that the first set does not hold. */
  lemma KeptTwice(m: seq<byte>, n: seq<byte>, o: seq<byte>, base: nat, used: set<Block>, more: set<Block>, a: int)
    requires UsedKept(m, n, base, used, -1) && UsedKept(n, o, base, more, a)
    requires used <= more && forall b :: b in used ==> b.addr != a
    ensures UsedKept(m, o, base, used, -1)
  {
  }

  lemma KeptThenAll(m: seq<byte>, n: seq<byte>, o: seq<byte>, base: nat, used: set<Block>, a: int)
    requires UsedKept(m, n, base, used, a) && UsedKept(n, o, base, used, -1)
    ensures UsedKept(m, o, base, used, a)
  {
  }

  /** The len bytes of n from q on repeat those of m from p on. */
  ghost predicate Copied(m: seq<byte>, p: int, n: seq<byte>, q: int, len: nat)
  {
    && 0 <= p && 0 <= q && p + len <= |m| && q + len <= |n|
    && forall k :: q <= k < q + len ==> n[k] == m[k - q + p]
  }

  lemma CopiedLess(m: seq<byte>, p: int, n: seq<byte>, q: int, len: nat, less: nat)
    requires Copied(m, p, n, q, len) && less <= len
    ensures Copied(m, p, n, q, less)
  {
  }

  /** A copy out of an untouched payload into one that is then left alone. */
  lemma CopiedThrough(m: seq<byte>, m1: seq<byte>, m2: seq<byte>, m3: seq<byte>, base: nat, src: Block, dst: Block,
                      len: nat)
    requires SamePayload(m, m1, base, src) && SamePayload(m2, m3, base, dst)
    requires len <= src.size && len <= dst.size
    requires Copied(m1, src.Payload() - base, m2, dst.Payload() - base, len)
    ensures Copied(m, src.Payload() - base, m3, dst.Payload() - base, len)
  {
  }
}
