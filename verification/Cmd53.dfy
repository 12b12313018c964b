/**
  Sending or receiving a packet chain with IO_RW_EXTENDED commands (sdioh_request_packet_chain
  in bcmsdh_sdmmc.c; section 5.3 of the SDIO Simplified Specification).
 */
module Cmd53 {
  import opened Octets
  import opened Modular
  import opened Sequences

  const SG_ENTRIES: nat := 42      // SDIOH_SDMMC_MAX_SG_ENTRIES
  const MAX_BLOCKS: nat := 511     // MAX_IO_RW_EXTENDED_BLK

  type Chain = seq<seq<Byte>>

  /** A scatter-gather entry: a piece of a packet of the chain. */
  datatype Seg = Seg(pkt: nat, off: nat, len: nat)

  /** A command as issued: its argument fields and its scatter list. */
  datatype Request = Request(write: bool, func: nat, incr: bool, address: nat, blocks: nat, segs: seq<Seg>)

  /** What the host controller can do. */
  datatype Host = Host(blkSize: nat, maxBlkCount: nat, maxReqSize: nat, maxSegSize: nat) {
    predicate Positive() {
      blkSize > 0 && maxBlkCount > 0 && maxReqSize > 0 && maxSegSize > 0
    }

    /** The limits of one command. */
    function Bounds(): (l: Limits)
      requires Positive()
      ensures l.Ok() && l.blkSize == blkSize && l.maxSeg == maxSegSize
      ensures l.maxReq <= maxBlkCount * blkSize && l.maxReq <= 511 * blkSize && l.maxReq <= maxReqSize
      ensures l.maxReq in {maxBlkCount * blkSize, 511 * blkSize, maxReqSize}
    {
      var blocks := if maxBlkCount < MAX_BLOCKS then maxBlkCount else MAX_BLOCKS;
      Product(blocks, blkSize);
      Larger(blocks, maxBlkCount, blkSize);
      var m := blocks * blkSize;
      Limits(blkSize, if m < maxReqSize then m else maxReqSize, maxSegSize)
    }
  }

  /** Bytes in a block, in a command and in a scatter entry. */
  datatype Limits = Limits(blkSize: nat, maxReq: nat, maxSeg: nat) {
    ghost predicate Ok() {
      blkSize > 0 && 0 < maxReq <= MAX_BLOCKS * blkSize && maxSeg > 0
    }
  }

  lemma Product(n: nat, b: nat)
    requires n <= MAX_BLOCKS
    ensures 0 <= n * b <= MAX_BLOCKS * b
    ensures n > 0 && b > 0 ==> n * b > 0
  {
    assert (MAX_BLOCKS - n) * b >= 0;
  }

  lemma Larger(x: nat, y: nat, b: nat)
    ensures x <= y ==> x * b <= y * b
  {
    if x <= y {
      assert (y - x) * b >= 0;
    }
  }

  // ---------------------------------------------------------------- bytes

  ghost predicate SegOk(c: Chain, s: Seg) {
    s.pkt < |c| && s.off + s.len <= |c[s.pkt]|
  }

  ghost predicate SegsOk(c: Chain, segs: seq<Seg>) {
    forall k :: 0 <= k < |segs| ==> SegOk(c, segs[k])
  }

  /** The bytes a scatter list covers, in order. */
  ghost function Covered(c: Chain, segs: seq<Seg>): seq<Byte>
    requires SegsOk(c, segs)
  {
    if segs == [] then []
    else
      var s := segs[|segs| - 1];
      Covered(c, segs[..|segs| - 1]) + c[s.pkt][s.off..s.off + s.len]
  }

  ghost predicate LogOk(c: Chain, log: seq<Request>) {
    forall k :: 0 <= k < |log| ==> SegsOk(c, log[k].segs)
  }

  /** The bytes of all requests, in the order they were issued. */
  ghost function Moved(c: Chain, log: seq<Request>): seq<Byte>
    requires LogOk(c, log)
  {
    if log == [] then [] else Moved(c, log[..|log| - 1]) + Covered(c, log[|log| - 1].segs)
  }

  /** The bytes of the chain. */
  ghost function Bytes(c: Chain): seq<Byte> {
    if c == [] then [] else Bytes(c[..|c| - 1]) + c[|c| - 1]
  }

  /** The bytes of the chain up to an offset in packet i. */
  ghost function Upto(c: Chain, i: nat, off: nat): seq<Byte>
    requires i <= |c| && if i < |c| then off <= |c[i]| else off == 0
  {
    Bytes(c[..i]) + if i < |c| then c[i][..off] else []
  }

  lemma Pushed(c: Chain, segs: seq<Seg>, s: Seg)
    requires SegsOk(c, segs) && SegOk(c, s)
    ensures SegsOk(c, segs + [s])
    ensures Covered(c, segs + [s]) == Covered(c, segs) + c[s.pkt][s.off..s.off + s.len]
  {
    assert (segs + [s])[..|segs|] == segs;
  }

  lemma Issued(c: Chain, log: seq<Request>, r: Request)
    requires LogOk(c, log) && SegsOk(c, r.segs)
    ensures LogOk(c, log + [r]) && Moved(c, log + [r]) == Moved(c, log) + Covered(c, r.segs)
  {
    assert (log + [r])[..|log|] == log;
  }

  /** Stepping over a piece of packet i, into the next packet if that was all of it. */
  lemma Advance(c: Chain, i: nat, off: nat, n: nat)
    requires i < |c| && off + n <= |c[i]|
    ensures Upto(c, i, off) + c[i][off..off + n]
         == if off + n == |c[i]| then Upto(c, i + 1, 0) else Upto(c, i, off + n)
  {
    assert c[i][..off] + c[i][off..off + n] == c[i][..off + n];
    assert Upto(c, i, off) + c[i][off..off + n] == Bytes(c[..i]) + c[i][..off + n];
    if off + n == |c[i]| {
      assert c[..i + 1][..i] == c[..i] && c[i][..off + n] == c[i];
    }
  }

  /** A scatter list covers the chain from one place to another, in pieces that are not empty and not too long. */
  ghost predicate Gathered(c: Chain, i: nat, off: nat, segs: seq<Seg>, i': nat, off': nat, maxSeg: nat) {
    && At(c, i, off) && At(c, i', off') && i <= i'
    && SegsOk(c, segs) && Upto(c, i, off) + Covered(c, segs) == Upto(c, i', off')
    && forall k :: 0 <= k < |segs| ==> 0 < segs[k].len <= maxSeg
  }

  /** A place in a chain: an offset inside a packet, or the end. */
  ghost predicate At(c: Chain, i: nat, off: nat) {
    i <= |c| && if i < |c| then off < |c[i]| else off == 0
  }

  lemma GatherNone(c: Chain, i: nat, off: nat, maxSeg: nat)
    requires At(c, i, off)
    ensures Gathered(c, i, off, [], i, off, maxSeg)
  {
  }

  lemma GatherOne(c: Chain, i: nat, off: nat, segs: seq<Seg>, i': nat, off': nat, maxSeg: nat, n: nat)
    requires Gathered(c, i, off, segs, i', off', maxSeg) && NoneEmpty(c)
    requires i' < |c| && 0 < n <= maxSeg && off' + n <= |c[i']|
    ensures var last := off' + n == |c[i']|;
      Gathered(c, i, off, segs + [Seg(i', off', n)], if last then i' + 1 else i', if last then 0 else off' + n, maxSeg)
    ensures SegsOk(c, segs + [Seg(i', off', n)]) && |Covered(c, segs + [Seg(i', off', n)])| == |Covered(c, segs)| + n
  {
    var s := Seg(i', off', n);
    Pushed(c, segs, s);
    Advance(c, i', off', n);
    Assoc(Upto(c, i, off), Covered(c, segs), c[i'][off'..off' + n]);
  }

  // ---------------------------------------------------------------- the outcome, from the inputs

  ghost predicate NoneEmpty(c: Chain) {
    forall k :: 0 <= k < |c| ==> c[k] != []
  }

  /** The bytes from a place to the end of the chain. */
  ghost function Rest(c: Chain, i: nat, off: nat): nat
    requires NoneEmpty(c) && At(c, i, off)
    decreases |c| - i
  {
    if i == |c| then 0 else |c[i]| - off + Rest(c, i + 1, 0)
  }

  /** How many pieces of at most `m` bytes make up n bytes. */
  function Ceil(n: nat, m: nat): nat
    requires m > 0
  {
    (n + m - 1) / m
  }

  /** The scatter entries that `room` bytes from a place take, packet by packet. */
  ghost function Pieces(c: Chain, i: nat, off: nat, room: nat, maxSeg: nat): nat
    requires NoneEmpty(c) && At(c, i, off) && maxSeg > 0
    decreases |c| - i
  {
    if i == |c| || room == 0 then 0
    else if room < |c[i]| - off then Ceil(room, maxSeg)
    else Ceil(|c[i]| - off, maxSeg) + Pieces(c, i + 1, 0, room - (|c[i]| - off), maxSeg)
  }

  /** The place `room` bytes on, or the end. */
  ghost function Skip(c: Chain, i: nat, off: nat, room: nat): (r: (nat, nat))
    requires NoneEmpty(c) && At(c, i, off)
    ensures At(c, r.0, r.1)
    ensures Rest(c, r.0, r.1) == if room < Rest(c, i, off) then Rest(c, i, off) - room else 0
    decreases |c| - i
  {
    if i == |c| || room == 0 then (i, off)
    else if room < |c[i]| - off then (i, off + room)
    else Skip(c, i + 1, 0, room - (|c[i]| - off))
  }

  lemma CeilNext(n: nat, m: nat)
    requires m > 0 && n > 0
    ensures Ceil(n, m) == 1 + if n > m then Ceil(n - m, m) else 0
  {
    if n > m {
      assert (n + m - 1) == (n - m + m - 1) + m;
      DivAdd(n - m + m - 1, m);
    } else {
      ModUnique(n + m - 1, 1, n - 1, m);
    }
  }

  lemma DivAdd(x: nat, m: nat)
    requires m > 0
    ensures (x + m) / m == x / m + 1
  {
    ModUnique(x + m, x / m + 1, x % m, m);
  }

  /** One entry of the inner loop. */
  lemma PiecesNext(c: Chain, i: nat, off: nat, room: nat, maxSeg: nat, n: nat)
    requires NoneEmpty(c) && At(c, i, off) && i < |c| && room > 0 && maxSeg > 0 && n == Least(|c[i]| - off, room, maxSeg)
    ensures var last := off + n == |c[i]|;
      var (j, joff) := (if last then i + 1 else i, if last then 0 else off + n);
      && At(c, j, joff)
      && Pieces(c, i, off, room, maxSeg) == 1 + Pieces(c, j, joff, room - n, maxSeg)
      && Skip(c, i, off, room) == Skip(c, j, joff, room - n)
      && Rest(c, i, off) == n + Rest(c, j, joff)
  {
    var here := if room < |c[i]| - off then room else |c[i]| - off;
    CeilNext(here, maxSeg);
  }

  /** What becomes of a chain from a place on, on a bus without faults. */
  ghost function Fate(l: Limits, c: Chain, i: nat, off: nat): Outcome
    requires l.Ok() && NoneEmpty(c) && At(c, i, off)
    decreases Rest(c, i, off)
  {
    if i == |c| then Success
    else if Pieces(c, i, off, l.maxReq, l.maxSeg) > SG_ENTRIES then TooManySegs
    else if Minimum(l.maxReq, Rest(c, i, off)) % l.blkSize != 0 then Misaligned
    else Fate(l, c, Skip(c, i, off, l.maxReq).0, Skip(c, i, off, l.maxReq).1)
  }

  function Minimum(a: nat, b: nat): nat {
    if a < b then a else b
  }

  /** No command, each as large as can be, needs more scatter entries than there are. */
  ghost predicate EntriesSuffice(l: Limits, c: Chain, i: nat, off: nat)
    requires l.Ok() && NoneEmpty(c) && At(c, i, off)
    decreases Rest(c, i, off)
  {
    i == |c| || (Pieces(c, i, off, l.maxReq, l.maxSeg) <= SG_ENTRIES
                 && EntriesSuffice(l, c, Skip(c, i, off, l.maxReq).0, Skip(c, i, off, l.maxReq).1))
  }

  /**
    A chain is moved by a bus without faults if and only if no command runs out of entries, its
    bytes are whole blocks, and it is one command or commands are whole blocks.
   */
  lemma {:induction false} FateIs(l: Limits, c: Chain, i: nat, off: nat)
    requires l.Ok() && NoneEmpty(c) && At(c, i, off)
    ensures Fate(l, c, i, off) == Success <==> EntriesSuffice(l, c, i, off) && Blocky(Rest(c, i, off), l.maxReq, l.blkSize)
    decreases Rest(c, i, off)
  {
    if i < |c| {
      var s := Skip(c, i, off, l.maxReq);
      FateIs(l, c, s.0, s.1);
      WholeBlocks(Rest(c, i, off), Rest(c, s.0, s.1), l.maxReq, l.blkSize);
    }
  }

  /** A number of bytes can be cut into commands of whole blocks. */
  predicate Blocky(n: nat, m: nat, b: nat)
    requires b > 0
  {
    n % b == 0 && (n <= m || m % b == 0)
  }

  lemma WholeBlocks(n: nat, rest: nat, m: nat, b: nat)
    requires b > 0 && rest == if m < n then n - m else 0
    ensures Blocky(n, m, b) <==> Minimum(m, n) % b == 0 && Blocky(rest, m, b)
  {
    if m < n && m % b == 0 {
      ModMinus(n, m, b);
    }
  }

  lemma ModMinus(n: nat, m: nat, b: nat)
    requires b > 0 && m <= n && m % b == 0
    ensures n % b == (n - m) % b
  {
    var q, r := (n - m) / b, (n - m) % b;
    assert n == b * (q + m / b) + r;
    ModUnique(n, q + m / b, r, b);
  }

  /** The bytes from the start on are those of the chain. */
  lemma {:induction false} RestBytes(c: Chain, i: nat, off: nat)
    requires NoneEmpty(c) && At(c, i, off)
    ensures |Upto(c, i, off)| + Rest(c, i, off) == |Bytes(c)|
    decreases |c| - i
  {
    if i == |c| {
      assert c[..i] == c;
    } else {
      RestBytes(c, i + 1, 0);
      assert c[..i + 1][..i] == c[..i];
    }
  }

  /** The same, of the whole chain. */
  lemma ChainFate(l: Limits, c: Chain)
    requires l.Ok() && NoneEmpty(c)
    ensures Fate(l, c, 0, 0) == Success
       <==> EntriesSuffice(l, c, 0, 0) && |Bytes(c)| % l.blkSize == 0 && (|Bytes(c)| <= l.maxReq || l.maxReq % l.blkSize == 0)
  {
    FateIs(l, c, 0, 0);
    RestBytes(c, 0, 0);
    assert c[..0] == [];
  }

  /** Packets that each fit one entry take one entry each. */
  lemma {:induction false} OneEach(c: Chain, i: nat, room: nat, maxSeg: nat)
    requires NoneEmpty(c) && i <= |c| && maxSeg > 0 && Rest(c, i, 0) <= room
    requires forall k :: i <= k < |c| ==> |c[k]| <= maxSeg
    ensures Pieces(c, i, 0, room, maxSeg) == |c| - i && Skip(c, i, 0, room) == (|c|, 0)
    decreases |c| - i
  {
    if i < |c| {
      OneEach(c, i + 1, room - |c[i]|, maxSeg);
      CeilNext(|c[i]|, maxSeg);
    }
  }

  /** Small packets that together fit one command: more than 42 are too many, else they must fill whole blocks. */
  lemma SmallPackets(l: Limits, c: Chain)
    requires l.Ok() && NoneEmpty(c) && c != [] && |Bytes(c)| <= l.maxReq
    requires forall k :: 0 <= k < |c| ==> |c[k]| <= l.maxSeg
    ensures Fate(l, c, 0, 0) == if |c| > 42 then TooManySegs else if |Bytes(c)| % l.blkSize != 0 then Misaligned else Success
  {
    RestBytes(c, 0, 0);
    assert c[..0] == [];
    OneEach(c, 0, l.maxReq, l.maxSeg);
  }

  // ---------------------------------------------------------------- what is promised of the requests

  ghost predicate WithinLimits(l: Limits, r: Request, total: nat) {
    && 1 <= r.blocks <= MAX_BLOCKS && r.blocks * l.blkSize == total <= l.maxReq
    && |r.segs| <= SG_ENTRIES
    && forall k :: 0 <= k < |r.segs| ==> r.segs[k].len <= l.maxSeg
  }

  /** A request as the caller wants it, within the limits and aimed behind the bytes moved before it. */
  ghost predicate RequestOk(l: Limits, c: Chain, write: bool, func: nat, fifo: bool, start: nat, before: nat, r: Request)
    requires SegsOk(c, r.segs)
  {
    && WithinLimits(l, r, |Covered(c, r.segs)|)
    && r.write == write && r.func == func % 8 && r.incr == !fifo
    && r.address == AddrField(AddrAfter(start, fifo, before))
  }

  ghost predicate Promised(l: Limits, c: Chain, write: bool, func: nat, fifo: bool, start: nat, log: seq<Request>) {
    && LogOk(c, log)
    && forall k :: 0 <= k < |log| ==> RequestOk(l, c, write, func, fifo, start, |Moved(c, log[..k])|, log[k])
  }

  /** Why a chain was not moved. */
  datatype Outcome = Success | TooManySegs | Misaligned | BusError

  function Least(x: nat, y: nat, z: nat): (m: nat)
    ensures m <= x && m <= y && m <= z && (m == x || m == y || m == z)
  {
    var m := if x > y then y else x;
    if m > z then z else m
  }

  /** Where the commands stop, and the scatter list that could not be sent from there. */
  datatype Stop = Stop(i: nat, off: nat, segs: seq<Seg>, i': nat, off': nat)

  /** The next command needs more scatter entries than there are, or does not fill whole blocks. */
  ghost predicate Refused(l: Limits, c: Chain, log: seq<Request>, r: Outcome, s: Stop)
    requires LogOk(c, log)
  {
    && Gathered(c, s.i, s.off, s.segs, s.i', s.off', l.maxSeg) && Moved(c, log) == Upto(c, s.i, s.off)
    && var n := |Covered(c, s.segs)|;
       if r == Misaligned then l.blkSize > 0 && n % l.blkSize != 0 && (n == l.maxReq || s.i' == |c|)
       else |s.segs| == SG_ENTRIES && n < l.maxReq && s.i' < |c|
  }

  /** In the inner loop, what is still ahead of the command. */
  ghost predicate Ahead(l: Limits, c: Chain, i: nat, off: nat, k: nat, ttl: nat, j: nat, joff: nat)
    requires l.Ok() && NoneEmpty(c) && At(c, i, off) && At(c, j, joff) && ttl <= l.maxReq
  {
    && Pieces(c, i, off, l.maxReq, l.maxSeg) == k + Pieces(c, j, joff, l.maxReq - ttl, l.maxSeg)
    && Skip(c, i, off, l.maxReq) == Skip(c, j, joff, l.maxReq - ttl)
    && Rest(c, i, off) == ttl + Rest(c, j, joff)
  }

  lemma AheadNext(l: Limits, c: Chain, i: nat, off: nat, k: nat, ttl: nat, j: nat, joff: nat)
    requires l.Ok() && NoneEmpty(c) && At(c, i, off) && At(c, j, joff) && j < |c| && ttl < l.maxReq
    requires Ahead(l, c, i, off, k, ttl, j, joff)
    ensures Pieces(c, i, off, l.maxReq, l.maxSeg) > k
    ensures var n := Least(|c[j]| - joff, l.maxReq - ttl, l.maxSeg);
      var last := joff + n == |c[j]|;
      var (j', joff') := (if last then j + 1 else j, if last then 0 else joff + n);
      At(c, j', joff') && Ahead(l, c, i, off, k + 1, ttl + n, j', joff') == true
  {
    PiecesNext(c, j, joff, l.maxReq - ttl, l.maxSeg, Least(|c[j]| - joff, l.maxReq - ttl, l.maxSeg));
  }

  class Sdioh {
    const sgList: array<Seg>
    ghost var log: seq<Request>

    ghost predicate Valid()
      reads this
    {
      sgList.Length == SG_ENTRIES
    }

    constructor ()
      ensures Valid() && log == [] && fresh(sgList)
    {
      sgList := new Seg[SG_ENTRIES](i => Seg(0, 0, 0));
      log := [];
    }

    /**
      The inner loop: entries for as many bytes as one command can move. Unless the chain ends it
      fills the command.
     */
    method Gather(l: Limits, c: Chain, i: nat, off: nat) returns (ok: bool, sgCount: nat, ttlLen: nat, i': nat, off': nat)
      requires Valid() && l.Ok() && NoneEmpty(c)
      requires At(c, i, off) && i < |c|
      modifies sgList
      ensures sgCount <= SG_ENTRIES && Gathered(c, i, off, sgList[..sgCount], i', off', l.maxSeg)
      ensures SegsOk(c, sgList[..sgCount]) && ttlLen == |Covered(c, sgList[..sgCount])| <= l.maxReq
      ensures ok ==> ttlLen > 0 && (ttlLen == l.maxReq || i' == |c|)
      ensures !ok ==> sgCount == SG_ENTRIES && ttlLen < l.maxReq && i' < |c|
      ensures ok <==> Pieces(c, i, off, l.maxReq, l.maxSeg) <= SG_ENTRIES
      ensures ok ==> (i', off') == Skip(c, i, off, l.maxReq) && ttlLen == Minimum(l.maxReq, Rest(c, i, off))
    {
      ok, sgCount, ttlLen, i', off' := true, 0, 0, i, off;
      GatherNone(c, i, off, l.maxSeg);
      assert sgList[..0] == [];
      while i' < |c| && ttlLen < l.maxReq
        invariant sgCount <= SG_ENTRIES && Gathered(c, i, off, sgList[..sgCount], i', off', l.maxSeg)
        invariant SegsOk(c, sgList[..sgCount]) && ttlLen == |Covered(c, sgList[..sgCount])| <= l.maxReq
        invariant At(c, i', off') && (ttlLen == 0 ==> i' == i)
        invariant Ahead(l, c, i, off, sgCount, ttlLen, i', off')
        decreases l.maxReq - ttlLen
      {
        AheadNext(l, c, i, off, sgCount, ttlLen, i', off');
        if sgCount >= SG_ENTRIES {
          ok := false;
          return;
        }
        sgCount, ttlLen, i', off' := Add(l, c, i, off, sgCount, ttlLen, i', off');
      }
    }

    /** One turn of the inner loop: the next entry. */
    method Add(l: Limits, c: Chain, ghost i: nat, ghost off: nat, k: nat, ttl: nat, j: nat, joff: nat)
      returns (sgCount: nat, ttlLen: nat, i': nat, off': nat)
      requires Valid() && l.Ok() && NoneEmpty(c)
      requires k < SG_ENTRIES && Gathered(c, i, off, sgList[..k], j, joff, l.maxSeg) == true
      requires SegsOk(c, sgList[..k]) && ttl == |Covered(c, sgList[..k])| < l.maxReq && At(c, j, joff) && j < |c|
      modifies sgList
      ensures sgCount == k + 1 && Gathered(c, i, off, sgList[..sgCount], i', off', l.maxSeg)
      ensures SegsOk(c, sgList[..sgCount]) && ttl < ttlLen == |Covered(c, sgList[..sgCount])| <= l.maxReq
      ensures At(c, i', off')
      ensures var n := Least(|c[j]| - joff, l.maxReq - ttl, l.maxSeg);
        var last := joff + n == |c[j]|;
        ttlLen == ttl + n && (i', off') == (if last then j + 1 else j, if last then 0 else joff + n)
    {
      var pktLen := |c[j]|;
      var sgDataSize := Least(pktLen - joff, l.maxReq - ttl, l.maxSeg);
      GatherOne(c, i, off, sgList[..k], j, joff, l.maxSeg, sgDataSize);
      SetBuf(k, Seg(j, joff, sgDataSize));
      sgCount, ttlLen, off' := k + 1, ttl + sgDataSize, joff + sgDataSize;
      i' := j;
      if off' == pktLen {
        i', off' := j + 1, 0;
      }
    }

    /** `sg_set_buf`. */
    method SetBuf(k: nat, seg: Seg)
      requires k < sgList.Length
      modifies sgList
      ensures sgList[..k + 1] == old(sgList[..k]) + [seg]
    {
      sgList[k] := seg;
    }

    /** Issue the command for a filled scatter list. */
    method Issue(l: Limits, fifo: bool, write: bool, func: nat, start: nat, c: Chain, ghost bus: nat -> bool,
                 ghost i: nat, ghost off: nat, ghost at: nat, addr: nat, sgCount: nat, ttlLen: nat, ghost i': nat, ghost off': nat)
      returns (addr': nat, ghost at': nat)
      requires Valid() && sgCount <= SG_ENTRIES && l.Ok() && i < |c|
      requires Going(l, c, write, func, fifo, start, bus, log, i, off, at) && Held32(at, addr)
      requires Gathered(c, i, off, sgList[..sgCount], i', off', l.maxSeg) == true
      requires SegsOk(c, sgList[..sgCount]) && ttlLen == |Covered(c, sgList[..sgCount])| && ttlLen % l.blkSize == 0
      requires 0 < ttlLen <= l.maxReq && (ttlLen == l.maxReq || i' == |c|)
      modifies this`log
      ensures |log| == |old(log)| + 1 && LogOk(c, log) && LogOk(c, old(log)) && At(c, i', off')
      ensures Promised(l, c, write, func, fifo, start, log)
      ensures Moved(c, log) == Upto(c, i', off') <= Bytes(c) && |Moved(c, log)| == |Moved(c, old(log))| + ttlLen
      ensures bus(|log| - 1) ==> Going(l, c, write, func, fifo, start, bus, log, i', off', at') == true
      ensures Held32(at', addr')
    {
      AddrWidth(at, addr);
      AddrNext(at, addr, ttlLen);
      var req := Request(write, func % 8, !fifo, AddrField(addr), NumBlocks(ttlLen, l.blkSize), sgList[..sgCount]);
      addr', at' := if fifo then addr else Add32(addr, ttlLen), if fifo then at else at + ttlLen;
      NextAll(l, c, write, func, fifo, start, bus, log, i, off, at, req, i', off', at');
      log := log + [req];
    }

    /** The loops of `sdioh_request_packet_chain`, given the limits of a command. */
    method Requests(l: Limits, fifo: bool, write: bool, func: nat, start: nat, c: Chain, bus: nat -> bool)
      returns (r: Outcome, ghost stop: Stop)
      requires Valid() && l.Ok() && start < ADDR_RANGE && c != [] && NoneEmpty(c)
      requires log == []
      modifies this`log, sgList
      ensures Valid() && Promised(l, c, write, func, fifo, start, log)
      ensures Moved(c, log) <= Bytes(c)
      ensures r == Success ==> Moved(c, log) == Bytes(c)
      ensures r == Success ==> forall k :: 0 <= k < |log| - 1 ==> |Covered(c, log[k].segs)| == l.maxReq
      ensures r in {TooManySegs, Misaligned} ==> Refused(l, c, log, r, stop)
      ensures r == BusError <==> exists k :: 0 <= k < |log| && !bus(k)
      ensures r == BusError || r == Fate(l, c, 0, 0)
    {
      var i: nat, off: nat, addr: nat, n := 0, 0, start, 0;
      ghost var at, fate := start, Fate(l, c, 0, 0);
      GoingNone(l, c, write, func, fifo, start, bus);
      while i < |c|
        invariant Going(l, c, write, func, fifo, start, bus, log, i, off, at) && n == |log|
        invariant Held32(at, addr)
        invariant At(c, i, off) && LogOk(c, log) && Fate(l, c, i, off) == fate
        decreases |Bytes(c)| - |Moved(c, log)|
      {
        var ok, sgCount, ttlLen, i', off' := Gather(l, c, i, off);
        if !ok {
          UptoPrefix(c, i, off);
          return TooManySegs, Stop(i, off, sgList[..sgCount], i', off');
        }
        if ttlLen % l.blkSize != 0 {
          UptoPrefix(c, i, off);
          return Misaligned, Stop(i, off, sgList[..sgCount], i', off');
        }
        addr, at := Issue(l, fifo, write, func, start, c, bus, i, off, at, addr, sgCount, ttlLen, i', off');
        n := n + 1;
        i, off := i', off';
        if !bus(n - 1) {
          return BusError, Stop(i, off, [], i, off);
        }
      }
      UptoPrefix(c, i, off);
      r, stop := Success, Stop(i, off, [], i, off);
    }

    /**
      `sdioh_request_packet_chain`. The bus answers the k-th command with `bus(k)`. Whatever
      happens, the commands issued move a prefix of the chain's bytes; on success they move it all.
     */
    method RequestPacketChain(h: Host, fifo: bool, write: bool, func: nat, start: nat, c: Chain, bus: nat -> bool)
      returns (r: Outcome, ghost stop: Stop)
      requires Valid() && h.Positive() && start < ADDR_RANGE && c != [] && NoneEmpty(c)
      requires log == []
      modifies this`log, sgList
      ensures Valid() && Promised(h.Bounds(), c, write, func, fifo, start, log)
      ensures Moved(c, log) <= Bytes(c)
      ensures r == Success ==> Moved(c, log) == Bytes(c)
      ensures r == Success ==> forall k :: 0 <= k < |log| - 1 ==> |Covered(c, log[k].segs)| == h.Bounds().maxReq
      ensures r in {TooManySegs, Misaligned} ==> Refused(h.Bounds(), c, log, r, stop)
      ensures r == BusError <==> exists k :: 0 <= k < |log| && !bus(k)
      ensures r == BusError || r == Fate(h.Bounds(), c, 0, 0)
      ensures forall k :: 0 <= k < |log| ==> HostTakes(h, c, log[k])
      ensures LogOk(c, log) && forall k :: 0 <= k < |log| ==> AsAsked(write, func, fifo, start, |Moved(c, log[..k])|, log[k])
    {
      r, stop := Requests(h.Bounds(), fifo, write, func, start, c, bus);
      AllWithinHost(h, c, write, func, fifo, start, log);
      AllAsAsked(h.Bounds(), c, write, func, fifo, start, log);
    }
  }

  /** A command is within what the host says it can do. */
  ghost predicate HostTakes(h: Host, c: Chain, r: Request) {
    && SegsOk(c, r.segs)
    && 1 <= r.blocks <= 511 && r.blocks <= h.maxBlkCount && r.blocks * h.blkSize == |Covered(c, r.segs)| <= h.maxReqSize
    && |r.segs| <= 42 && forall k :: 0 <= k < |r.segs| ==> r.segs[k].len <= h.maxSegSize
  }

  lemma WithinHost(h: Host, c: Chain, r: Request)
    requires h.Positive() && SegsOk(c, r.segs) && WithinLimits(h.Bounds(), r, |Covered(c, r.segs)|)
    ensures HostTakes(h, c, r)
  {
    Larger(h.maxBlkCount + 1, r.blocks, h.blkSize);
  }

  lemma AllWithinHost(h: Host, c: Chain, write: bool, func: nat, fifo: bool, start: nat, log: seq<Request>)
    requires h.Positive() && Promised(h.Bounds(), c, write, func, fifo, start, log)
    ensures forall k :: 0 <= k < |log| ==> HostTakes(h, c, log[k])
  {
    forall k | 0 <= k < |log| ensures HostTakes(h, c, log[k]) {
      assert RequestOk(h.Bounds(), c, write, func, fifo, start, |Moved(c, log[..k])|, log[k]);
      WithinHost(h, c, log[k]);
    }
  }

  /** A command for the register or, of a buffer, for the place behind the bytes moved before it. */
  ghost predicate AsAsked(write: bool, func: nat, fifo: bool, start: nat, before: nat, r: Request) {
    && r.write == write && (func < 8 ==> r.func == func) && r.incr == !fifo
    && r.address == (if fifo then start else start + before) % 0x20000
  }

  lemma AllAsAsked(l: Limits, c: Chain, write: bool, func: nat, fifo: bool, start: nat, log: seq<Request>)
    requires Promised(l, c, write, func, fifo, start, log)
    ensures forall k :: 0 <= k < |log| ==> AsAsked(write, func, fifo, start, |Moved(c, log[..k])|, log[k])
  {
    forall k | 0 <= k < |log| ensures AsAsked(write, func, fifo, start, |Moved(c, log[..k])|, log[k]) {
      assert RequestOk(l, c, write, func, fifo, start, |Moved(c, log[..k])|, log[k]);
    }
  }

  /** The state between two commands. */
  ghost predicate Going(l: Limits, c: Chain, write: bool, func: nat, fifo: bool, start: nat, bus: nat -> bool,
                        log: seq<Request>, i: nat, off: nat, addr: nat) {
    && At(c, i, off) && LogOk(c, log) && Promised(l, c, write, func, fifo, start, log)
    && Moved(c, log) == Upto(c, i, off)
    && addr == AddrAfter(start, fifo, |Moved(c, log)|)
    && (forall k :: 0 <= k < |log| ==> bus(k))
    && Filled(l, c, log, if i < |c| then |log| else |log| - 1)
  }

  lemma GoingNone(l: Limits, c: Chain, write: bool, func: nat, fifo: bool, start: nat, bus: nat -> bool)
    requires c != [] && c[0] != []
    ensures Going(l, c, write, func, fifo, start, bus, [], 0, 0, start)
  {
  }

  /** What a place leaves behind is a prefix of the chain's bytes. */
  lemma {:induction false} UptoPrefix(c: Chain, i: nat, off: nat)
    requires At(c, i, off)
    ensures Upto(c, i, off) <= Bytes(c)
    ensures i == |c| ==> Upto(c, i, off) == Bytes(c)
    decreases |c| - i
  {
    if i == |c| {
      assert c[..i] == c;
    } else {
      PacketPrefix(c, i);
      assert Bytes(c[..i]) + c[i][..off] <= Bytes(c[..i]) + c[i];
      assert Bytes(c[..i + 1]) == Bytes(c[..i]) + c[i] by { assert c[..i + 1][..i] == c[..i]; }
    }
  }

  lemma {:induction false} PacketPrefix(c: Chain, i: nat)
    requires i < |c|
    ensures Bytes(c[..i + 1]) <= Bytes(c)
    decreases |c|
  {
    if i + 1 == |c| {
      assert c[..i + 1] == c;
    } else {
      PacketPrefix(c[..|c| - 1], i);
      assert c[..|c| - 1][..i + 1] == c[..i + 1];
    }
  }

  /** A request just put together from a scatter list. */
  ghost predicate Wanted(l: Limits, c: Chain, write: bool, func: nat, fifo: bool, addr: nat, r: Request) {
    && l.Ok() && SegsOk(c, r.segs) && |r.segs| <= SG_ENTRIES
    && (forall k :: 0 <= k < |r.segs| ==> r.segs[k].len <= l.maxSeg)
    && r.write == write && r.func == func % 8 && r.incr == !fifo && r.address == AddrField(addr)
    && var n := |Covered(c, r.segs)|;
       0 < n <= l.maxReq && n % l.blkSize == 0 && r.blocks == NumBlocks(n, l.blkSize)
  }

  /** Issuing one more command. */
  lemma Next(l: Limits, c: Chain, write: bool, func: nat, fifo: bool, start: nat, bus: nat -> bool,
             log: seq<Request>, i: nat, off: nat, addr: nat, r: Request, i': nat, off': nat)
    requires Going(l, c, write, func, fifo, start, bus, log, i, off, addr) && i < |c|
    requires Gathered(c, i, off, r.segs, i', off', l.maxSeg) == true && SegsOk(c, r.segs)
    requires Wanted(l, c, write, func, fifo, addr, r)
    requires |Covered(c, r.segs)| == l.maxReq || i' == |c|
    ensures LogOk(c, log + [r]) && Promised(l, c, write, func, fifo, start, log + [r])
    ensures At(c, i', off') && Moved(c, log + [r]) == Upto(c, i', off')
    ensures |Moved(c, log + [r])| == |Moved(c, log)| + |Covered(c, r.segs)|
    ensures Filled(l, c, log + [r], if i' < |c| then |log| + 1 else |log|)
    ensures (forall k :: 0 <= k < |log| ==> bus(k)) && addr == AddrAfter(start, fifo, |Moved(c, log)|)
  {
    Issued(c, log, r);
    PromisedNext(l, c, write, func, fifo, start, addr, log, r);
    GatheredBytes(c, i, off, r.segs, i', off', l.maxSeg);
    FilledNext(l, c, log, r);
  }

  /** Everything that holds after one more command. */
  lemma NextAll(l: Limits, c: Chain, write: bool, func: nat, fifo: bool, start: nat, bus: nat -> bool,
                log: seq<Request>, i: nat, off: nat, addr: nat, r: Request, i': nat, off': nat, addr': nat)
    requires Going(l, c, write, func, fifo, start, bus, log, i, off, addr) && i < |c| && LogOk(c, log)
    requires Gathered(c, i, off, r.segs, i', off', l.maxSeg) == true && SegsOk(c, r.segs)
    requires Wanted(l, c, write, func, fifo, addr, r)
    requires |Covered(c, r.segs)| == l.maxReq || i' == |c|
    requires addr' == if fifo then addr else addr + |Covered(c, r.segs)|
    ensures LogOk(c, log + [r]) && At(c, i', off')
    ensures Promised(l, c, write, func, fifo, start, log + [r])
    ensures Moved(c, log + [r]) == Upto(c, i', off') <= Bytes(c)
    ensures |Moved(c, log + [r])| == |Moved(c, log)| + |Covered(c, r.segs)|
    ensures bus(|log|) ==> Going(l, c, write, func, fifo, start, bus, log + [r], i', off', addr') == true
  {
    Next(l, c, write, func, fifo, start, bus, log, i, off, addr, r, i', off');
    UptoPrefix(c, i', off');
    if bus(|log|) {
      GoingNext(l, c, write, func, fifo, start, bus, log, r, i', off', addr');
    }
  }

  lemma GoingNext(l: Limits, c: Chain, write: bool, func: nat, fifo: bool, start: nat, bus: nat -> bool,
                  log: seq<Request>, r: Request, i: nat, off: nat, addr: nat)
    requires LogOk(c, log + [r]) && Promised(l, c, write, func, fifo, start, log + [r])
    requires At(c, i, off) && Moved(c, log + [r]) == Upto(c, i, off)
    requires Filled(l, c, log + [r], if i < |c| then |log| + 1 else |log|)
    requires (forall k :: 0 <= k < |log| ==> bus(k)) && bus(|log|) && addr == AddrAfter(start, fifo, |Moved(c, log + [r])|)
    ensures Going(l, c, write, func, fifo, start, bus, log + [r], i, off, addr) == true
  {
  }

  lemma GatheredBytes(c: Chain, i: nat, off: nat, segs: seq<Seg>, i': nat, off': nat, maxSeg: nat)
    requires Gathered(c, i, off, segs, i', off', maxSeg)
    ensures At(c, i, off) && At(c, i', off') && Upto(c, i, off) + Covered(c, segs) == Upto(c, i', off')
    ensures forall k :: 0 <= k < |segs| ==> segs[k].len <= maxSeg
  {
  }

  lemma FilledNext(l: Limits, c: Chain, log: seq<Request>, r: Request)
    requires LogOk(c, log) && SegsOk(c, r.segs) && Filled(l, c, log, |log|)
    ensures LogOk(c, log + [r]) && Filled(l, c, log + [r], |log|)
    ensures |Covered(c, r.segs)| == l.maxReq ==> Filled(l, c, log + [r], |log| + 1)
  {
  }

  lemma PromisedNext(l: Limits, c: Chain, write: bool, func: nat, fifo: bool, start: nat, addr: nat, log: seq<Request>, r: Request)
    requires Promised(l, c, write, func, fifo, start, log) && Wanted(l, c, write, func, fifo, addr, r) && SegsOk(c, r.segs)
    requires AddrField(addr) == AddrField(AddrAfter(start, fifo, |Moved(c, log)|))
    ensures Promised(l, c, write, func, fifo, start, log + [r])
  {
    var all := log + [r];
    RequestNext(l, c, write, func, fifo, start, addr, |Moved(c, log)|, r);
    forall k | 0 <= k < |all|
      ensures SegsOk(c, all[k].segs) && LogOk(c, all[..k]) && RequestOk(l, c, write, func, fifo, start, |Moved(c, all[..k])|, all[k])
    {
      assert all[..k] == log[..k];
      if k < |log| {
        assert all[k] == log[k];
      } else {
        assert log[..k] == log;
      }
    }
  }

  lemma RequestNext(l: Limits, c: Chain, write: bool, func: nat, fifo: bool, start: nat, addr: nat, before: nat, r: Request)
    requires Wanted(l, c, write, func, fifo, addr, r) && SegsOk(c, r.segs)
    requires AddrField(addr) == AddrField(AddrAfter(start, fifo, before))
    ensures RequestOk(l, c, write, func, fifo, start, before, r)
  {
    Blocks(|Covered(c, r.segs)|, l.blkSize);
  }

  function NumBlocks(n: nat, b: nat): nat
    requires b > 0
  {
    n / b
  }

  lemma Blocks(n: nat, b: nat)
    requires b > 0 && n % b == 0 && 0 < n <= MAX_BLOCKS * b
    ensures 1 <= NumBlocks(n, b) <= MAX_BLOCKS && NumBlocks(n, b) * b == n
  {
    assert n == b * (n / b);
    if n / b > MAX_BLOCKS {
      MulAtLeast(b, MAX_BLOCKS, n / b);
    }
  }

  /** The address behind a number of bytes. */
  function AddrAfter(start: nat, fifo: bool, moved: nat): nat {
    if fifo then start else start + moved
  }

  /** The low 17 bits of an address, as they go into a command. */
  function AddrField(addr: nat): nat {
    addr % 0x20000
  }

  const ADDR_RANGE: nat := 0x1_0000_0000

  function Add32(addr: nat, n: nat): nat {
    (addr + n) % ADDR_RANGE
  }

  /** The address variable of the source has 32 bits. */
  ghost predicate Held32(at: nat, addr: nat) {
    addr == at % ADDR_RANGE
  }

  lemma AddrNext(at: nat, addr: nat, n: nat)
    requires Held32(at, addr)
    ensures Held32(at + n, Add32(addr, n))
  {
  }

  /** That does not show in a command. */
  lemma AddrWidth(at: nat, addr: nat)
    requires Held32(at, addr)
    ensures AddrField(addr) == AddrField(at)
  {
  }

  /** The first n requests are as large as the host allows. */
  ghost predicate Filled(l: Limits, c: Chain, log: seq<Request>, n: int)
    requires LogOk(c, log) && n <= |log|
  {
    forall k :: 0 <= k < n ==> |Covered(c, log[k].segs)| == l.maxReq
  }
}
