/**
  TCP data flows with pending PSH segments (dhd_ip.c, DELAYTX mode): a fixed pool
  of elements, shared between one free list and the chain of each table entry.
 */
module PshPool {

  const INFO_MAXNUM: nat := 4
  const PSH_INFO_MAXNUM: nat := 32
  const TIMEOUT: nat := 5000

  /** Source and destination address and port of a TCP stream. */
  datatype FourTuple = FourTuple(src: nat, dst: nat, sport: nat, dport: nat) {
    function Reverse(): FourTuple {
      FourTuple(dst, src, dport, sport)
    }
  }

  /** Milliseconds from `since` to `now` on a 32-bit clock. */
  function Elapsed(now: int, since: int): nat {
    (now - since) % 0x1_0000_0000
  }

  /** `IS_TCPSEQ_GE` on 32-bit sequence numbers. */
  predicate SeqGe(a: int, b: int) {
    (a - b) % 0x1_0000_0000 < 0x8000_0000
  }

  /** Greater or equal means: ahead by less than 2^31. */
  lemma GeIsForward(b: int, d: nat)
    requires d < 0x1_0000_0000
    ensures SeqGe(b + d, b) <==> d < 0x8000_0000
  {
  }

  // ---------------------------------------------------------------- the table, abstractly

  /** A flow with the end numbers of its unacknowledged PSH segments, oldest first. */
  datatype Entry = Entry(flow: FourTuple, ends: seq<int>, last: int)

  /** Removal of entry i: the last entry takes its place. */
  function SwapDrop<T>(t: seq<T>, i: nat): seq<T>
    requires i < |t|
  {
    t[i := t[|t| - 1]][..|t| - 1]
  }

  predicate Stale(e: Entry, now: int) {
    Elapsed(now, e.last) > TIMEOUT
  }

  /** An entry is stale when it has not been used for more than five seconds. */
  lemma StaleIs(e: Entry, d: nat)
    requires d < 0x1_0000_0000
    ensures Stale(e, e.last + d) <==> d > 5000
  {
  }

  /**
    The scan for `flow` from index i, ageing out stale entries on the way. Turn k
    reads the clock as `clock(k)`. The result is the table and the index at which
    the scan stopped: the flow's entry, or the end of the table.
   */
  function Scan(t: seq<Entry>, i: nat, flow: FourTuple, clock: nat -> int, k: nat): (r: (seq<Entry>, nat))
    requires i <= |t|
    ensures r.1 <= |r.0| <= |t|
    decreases |t| - i
  {
    if i == |t| then (t, i)
    else if t[i].flow == flow then (t[i := t[i].(last := clock(k))], i)
    else if Stale(t[i], clock(k)) then Scan(SwapDrop(t, i), i, flow, clock, k + 1)
    else Scan(t, i + 1, flow, clock, k + 1)
  }

  ghost predicate DistinctFlows(t: seq<Entry>) {
    forall i, j :: 0 <= i < j < |t| ==> t[i].flow != t[j].flow
  }

  predicate HasFlow(t: seq<Entry>, flow: FourTuple) {
    exists i :: 0 <= i < |t| && t[i].flow == flow
  }

  lemma SwapDropKeeps(t: seq<Entry>, i: nat)
    requires i < |t| && DistinctFlows(t)
    ensures DistinctFlows(SwapDrop(t, i))
    ensures forall e :: e in SwapDrop(t, i) <==> e in t && e != t[i]
  {
    var u := SwapDrop(t, i);
    forall e | e in t && e != t[i] ensures e in u {
      var j :| 0 <= j < |t| && t[j] == e;
      assert u[if j == |t| - 1 then i else j] == e;
    }
  }

  /** The scan finds the flow exactly when it is in the table, however old its entry is. */
  lemma {:induction false} ScanFinds(t: seq<Entry>, i: nat, flow: FourTuple, clock: nat -> int, k: nat)
    requires i <= |t| && DistinctFlows(t)
    requires forall j :: 0 <= j < i ==> t[j].flow != flow
    ensures var (u, at) := Scan(t, i, flow, clock, k);
      && DistinctFlows(u)
      && (at < |u| <==> HasFlow(t, flow))
      && (at < |u| ==> u[at].flow == flow)
      && (forall j :: 0 <= j < |u| && j != at ==> u[j].flow != flow)
    decreases |t| - i
  {
    if i < |t| && t[i].flow != flow {
      if Stale(t[i], clock(k)) {
        var u := SwapDrop(t, i);
        SwapDropKeeps(t, i);
        assert HasFlow(u, flow) <==> HasFlow(t, flow) by {
          HasFlowIsMember(t, flow);
          HasFlowIsMember(u, flow);
        }
        ScanFinds(u, i, flow, clock, k + 1);
      } else {
        ScanFinds(t, i + 1, flow, clock, k + 1);
      }
    }
  }

  lemma HasFlowIsMember(t: seq<Entry>, flow: FourTuple)
    ensures HasFlow(t, flow) <==> exists e :: e in t && e.flow == flow
  {
  }

  ghost predicate StaleSince(e: Entry, clock: nat -> int, k: nat) {
    exists n :: n >= k && Stale(e, clock(n))
  }

  ghost predicate FreshSince(e: Entry, clock: nat -> int, k: nat) {
    exists n :: n >= k && !Stale(e, clock(n))
  }

  /** It drops nothing but stale entries of other flows, and changes no entry but the flow's time. */
  lemma {:induction false} ScanDrops(t: seq<Entry>, i: nat, flow: FourTuple, clock: nat -> int, k: nat, e: Entry)
    requires i <= |t| && DistinctFlows(t) && e.flow != flow
    ensures var (u, at) := Scan(t, i, flow, clock, k);
      && (e in u ==> e in t)
      && (e in t && e !in u ==> StaleSince(e, clock, k))
    decreases |t| - i
  {
    if i < |t| {
      if t[i].flow == flow {
        UpdateMember(t, i, t[i].(last := clock(k)), e);
      } else if Stale(t[i], clock(k)) {
        SwapDropKeeps(t, i);
        ScanDrops(SwapDrop(t, i), i, flow, clock, k + 1, e);
      } else {
        ScanDrops(t, i + 1, flow, clock, k + 1, e);
      }
    }
  }

  lemma UpdateMember(t: seq<Entry>, i: nat, x: Entry, e: Entry)
    requires i < |t| && e != t[i] && e != x
    ensures e in t <==> e in t[i := x]
  {
    if e in t {
      var j :| 0 <= j < |t| && t[j] == e;
      assert t[i := x][j] == e;
    }
  }

  /** The flow's own entry keeps its segments. */
  lemma {:induction false} ScanKeepsFlow(t: seq<Entry>, i: nat, flow: FourTuple, clock: nat -> int, k: nat, e: Entry)
    requires i <= |t| && DistinctFlows(t) && e in t && e.flow == flow
    ensures var (u, at) := Scan(t, i, flow, clock, k); at < |u| ==> u[at].ends == e.ends
    decreases |t| - i
  {
    if i < |t| && t[i].flow != flow {
      if Stale(t[i], clock(k)) {
        SwapDropKeeps(t, i);
        ScanKeepsFlow(SwapDrop(t, i), i, flow, clock, k + 1, e);
      } else {
        ScanKeepsFlow(t, i + 1, flow, clock, k + 1, e);
      }
    }
  }

  /** A scan that comes to the end has looked at every survivor and found it fresh. */
  lemma {:induction false} ScanExamines(t: seq<Entry>, i: nat, flow: FourTuple, clock: nat -> int, k: nat, j: nat)
    requires i <= |t|
    requires var (u, at) := Scan(t, i, flow, clock, k); at == |u| && i <= j < |u|
    ensures FreshSince(Scan(t, i, flow, clock, k).0[j], clock, k)
    decreases |t| - i
  {
    if Stale(t[i], clock(k)) {
      ScanExamines(SwapDrop(t, i), i, flow, clock, k + 1, j);
    } else {
      ScanPrefix(t, i + 1, flow, clock, k + 1, i);
      if j > i {
        ScanExamines(t, i + 1, flow, clock, k + 1, j);
      }
    }
  }

  lemma {:induction false} ScanPrefix(t: seq<Entry>, i: nat, flow: FourTuple, clock: nat -> int, k: nat, j: nat)
    requires j < i <= |t|
    ensures var u := Scan(t, i, flow, clock, k).0; j < |u| && u[j] == t[j]
    decreases |t| - i
  {
    if i < |t| && t[i].flow != flow {
      if Stale(t[i], clock(k)) {
        ScanPrefix(SwapDrop(t, i), i, flow, clock, k + 1, j);
      } else {
        ScanPrefix(t, i + 1, flow, clock, k + 1, j);
      }
    }
  }

  // ---------------------------------------------------------------- the operations, abstractly

  /** Dropping the segments an ACK number covers: the longest prefix it is not behind. */
  function AckedEnds(ends: seq<int>, ack: int): seq<int> {
    if ends == [] || !SeqGe(ack, ends[0]) then ends else AckedEnds(ends[1..], ack)
  }

  /** What is left is a suffix, everything before it is covered, and its first segment is not. */
  lemma {:induction false} AckedIsSuffix(ends: seq<int>, ack: int)
    ensures var n := |ends| - |AckedEnds(ends, ack)|;
      && 0 <= n <= |ends| && AckedEnds(ends, ack) == ends[n..]
      && (forall j :: 0 <= j < n ==> SeqGe(ack, ends[j]))
      && (n < |ends| ==> !SeqGe(ack, ends[n]))
  {
    if ends != [] && SeqGe(ack, ends[0]) {
      AckedIsSuffix(ends[1..], ack);
    }
  }

  /** The table after an ACK covered segments of `flow`. */
  function AckedTable(t: seq<Entry>, flow: FourTuple, ack: int): seq<Entry> {
    seq(|t|, i requires 0 <= i < |t| => if t[i].flow == flow then t[i].(ends := AckedEnds(t[i].ends, ack)) else t[i])
  }

  lemma AckedTableIs(t: seq<Entry>, i: nat, flow: FourTuple, ack: int)
    requires DistinctFlows(t) && i <= |t|
    requires if i < |t| then t[i].flow == flow else !HasFlow(t, flow)
    ensures AckedTable(t, flow, ack) == if i < |t| then t[i := t[i].(ends := AckedEnds(t[i].ends, ack))] else t
    ensures AckedTable(t, flow, ack) == t <==> i == |t| || AckedEnds(t[i].ends, ack) == t[i].ends
    ensures DistinctFlows(AckedTable(t, flow, ack))
  {
  }

  /** The segments held by a table. */
  function Held(t: seq<Entry>): nat {
    if t == [] then 0 else |t[0].ends| + Held(t[1..])
  }

  lemma SwapDropUpdated<T>(t: seq<T>, i: nat, x: T)
    requires i < |t|
    ensures SwapDrop(t[i := x], i) == SwapDrop(t, i)
  {
  }

  /** A PSH segment of `flow` comes in: does its flow have a place, and is there an element for it? */
  predicate Placed(t: seq<Entry>, flow: FourTuple, clock: nat -> int) {
    var (u, at) := Scan(t, 0, flow, clock, 0);
    at < |u| || |u| < INFO_MAXNUM
  }

  predicate Room(t: seq<Entry>, flow: FourTuple, clock: nat -> int) {
    Held(Scan(t, 0, flow, clock, 0).0) < PSH_INFO_MAXNUM
  }

  /** The table after a PSH segment ending at `end` came in. */
  function Received(t: seq<Entry>, flow: FourTuple, end: int, clock: nat -> int, now: int): seq<Entry> {
    var (u, at) := Scan(t, 0, flow, clock, 0);
    if !Placed(t, flow, clock) then u
    else
      var v := if at == |u| then u + [Entry(flow, [], now)] else u;
      if Room(t, flow, clock) then v[at := v[at].(ends := v[at].ends + [end])] else v
  }

  /** A table never names a flow twice, whatever comes in. */
  lemma ReceivedDistinct(t: seq<Entry>, flow: FourTuple, end: int, clock: nat -> int, now: int)
    requires DistinctFlows(t)
    ensures DistinctFlows(Received(t, flow, end, clock, now))
  {
    ScanFinds(t, 0, flow, clock, 0);
  }

  // ---------------------------------------------------------------- what is recorded

  /** The segments of a flow that wait for an ACK. */
  function Pending(t: seq<Entry>, flow: FourTuple): seq<int> {
    if t == [] then [] else if t[0].flow == flow then t[0].ends else Pending(t[1..], flow)
  }

  lemma {:induction false} PendingAt(t: seq<Entry>, flow: FourTuple, i: nat)
    requires i <= |t| && (i < |t| ==> t[i].flow == flow) && forall j :: 0 <= j < i ==> t[j].flow != flow
    ensures Pending(t, flow) == if i < |t| then t[i].ends else []
  {
    if t != [] && i > 0 {
      PendingAt(t[1..], flow, i - 1);
    }
  }

  /** The ageing scan does not touch them, and notes when the flow was used. */
  lemma ScanPending(t: seq<Entry>, flow: FourTuple, clock: nat -> int)
    requires DistinctFlows(t)
    ensures var (u, at) := Scan(t, 0, flow, clock, 0);
      && Pending(u, flow) == Pending(t, flow)
      && (at < |u| ==> u[at].flow == flow && u[at].ends == Pending(t, flow) && exists n: nat :: u[at].last == clock(n))
      && (at == |u| ==> Pending(t, flow) == [])
  {
    ScanFinds(t, 0, flow, clock, 0);
    ScanTime(t, 0, flow, clock, 0);
    var (u, at) := Scan(t, 0, flow, clock, 0);
    PendingAt(u, flow, at);
    if i :| 0 <= i < |t| && t[i].flow == flow {
      PendingAt(t, flow, i);
      ScanKeepsFlow(t, 0, flow, clock, 0, t[i]);
    } else {
      PendingAt(t, flow, |t|);
    }
  }

  lemma {:induction false} ScanTime(t: seq<Entry>, i: nat, flow: FourTuple, clock: nat -> int, k: nat)
    requires i <= |t|
    ensures var (u, at) := Scan(t, i, flow, clock, k); at < |u| ==> exists n: nat :: u[at].last == clock(n)
    decreases |t| - i
  {
    if i < |t| && t[i].flow != flow {
      if Stale(t[i], clock(k)) {
        ScanTime(SwapDrop(t, i), i, flow, clock, k + 1);
      } else {
        ScanTime(t, i + 1, flow, clock, k + 1);
      }
    }
  }

  /**
    A segment that has a place and an element is recorded behind those that wait already, with its
    own end number; otherwise none is recorded.
   */
  lemma ReceivedRecords(t: seq<Entry>, flow: FourTuple, end: int, clock: nat -> int, now: int)
    requires DistinctFlows(t)
    ensures var u := Received(t, flow, end, clock, now);
      Pending(u, flow) == if Placed(t, flow, clock) && Room(t, flow, clock) then Pending(t, flow) + [end] else Pending(t, flow)
    ensures Placed(t, flow, clock) ==> HasFlow(Received(t, flow, end, clock, now), flow)
  {
    ScanFinds(t, 0, flow, clock, 0);
    ScanPending(t, flow, clock);
    var (u, at) := Scan(t, 0, flow, clock, 0);
    PendingAt(Received(t, flow, end, clock, now), flow, at);
    if Placed(t, flow, clock) {
      assert Received(t, flow, end, clock, now)[at].flow == flow;
    }
  }

  /** The entries of other flows stay as they are or have aged out. */
  lemma ReceivedOthers(t: seq<Entry>, flow: FourTuple, end: int, clock: nat -> int, now: int, e: Entry)
    requires DistinctFlows(t) && e.flow != flow
    ensures var u := Received(t, flow, end, clock, now);
      (e in u ==> e in t) && (e in t && e !in u ==> StaleSince(e, clock, 0))
  {
    ScanFinds(t, 0, flow, clock, 0);
    ScanDrops(t, 0, flow, clock, 0, e);
    var (u, at) := Scan(t, 0, flow, clock, 0);
    if Placed(t, flow, clock) {
      var v := if at == |u| then u + [Entry(flow, [], now)] else u;
      assert e in v <==> e in u;
      UpdateMember(v, at, v[at].(ends := v[at].ends + [end]), e);
    }
  }

  /** While nothing is stale, there is a place if the flow has one or fewer than four do, and an element if fewer than 32 wait. */
  lemma PlaceAndRoom(t: seq<Entry>, flow: FourTuple, clock: nat -> int)
    requires forall i, n :: 0 <= i < |t| ==> !Stale(t[i], clock(n))
    ensures Placed(t, flow, clock) <==> HasFlow(t, flow) || |t| < 4
    ensures Room(t, flow, clock) <==> Held(t) < 32
  {
    ScanFresh(t, 0, flow, clock, 0);
    var (u, at) := Scan(t, 0, flow, clock, 0);
    if at < |t| {
      HeldSame(t, u);
    }
  }

  lemma {:induction false} ScanFresh(t: seq<Entry>, i: nat, flow: FourTuple, clock: nat -> int, k: nat)
    requires i <= |t| && forall j, n :: 0 <= j < |t| ==> !Stale(t[j], clock(n))
    requires forall j :: 0 <= j < i ==> t[j].flow != flow
    ensures var (u, at) := Scan(t, i, flow, clock, k);
      && |u| == |t| && (at < |t| <==> HasFlow(t, flow)) && (at == |t| ==> u == t)
      && forall j :: 0 <= j < |t| ==> u[j].ends == t[j].ends
    decreases |t| - i
  {
    if i < |t| && t[i].flow != flow {
      ScanFresh(t, i + 1, flow, clock, k + 1);
    }
  }

  lemma {:induction false} HeldSame(t: seq<Entry>, u: seq<Entry>)
    requires |t| == |u| && forall j :: 0 <= j < |t| ==> u[j].ends == t[j].ends
    ensures Held(t) == Held(u)
  {
    if t != [] {
      HeldSame(t[1..], u[1..]);
    }
  }

  /** The ACK of a recorded segment, if it covers those before it, finds it and leaves none waiting. */
  lemma RecordedIsAcked(t: seq<Entry>, flow: FourTuple, end: int, clock: nat -> int, now: int)
    requires DistinctFlows(t) && Placed(t, flow, clock) && Room(t, flow, clock)
    requires forall j :: 0 <= j < |Pending(t, flow)| ==> SeqGe(end, Pending(t, flow)[j])
    ensures var u := Received(t, flow, end, clock, now);
      AckedTable(u, flow, end) != u && Pending(AckedTable(u, flow, end), flow) == []
  {
    var u := Received(t, flow, end, clock, now);
    ReceivedRecords(t, flow, end, clock, now);
    ReceivedDistinct(t, flow, end, clock, now);
    AckEmpties(u, flow, end);
  }

  lemma AckEmpties(u: seq<Entry>, flow: FourTuple, ack: int)
    requires DistinctFlows(u) && HasFlow(u, flow) && Pending(u, flow) != []
    requires forall j :: 0 <= j < |Pending(u, flow)| ==> SeqGe(ack, Pending(u, flow)[j])
    ensures AckedTable(u, flow, ack) != u && Pending(AckedTable(u, flow, ack), flow) == []
  {
    var i :| 0 <= i < |u| && u[i].flow == flow;
    PendingAt(u, flow, i);
    AckedIsSuffix(u[i].ends, ack);
    AckedTableIs(u, i, flow, ack);
    PendingAt(AckedTable(u, flow, ack), flow, i);
  }
}
