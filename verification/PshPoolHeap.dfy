/** The PSH pool and flow table as linked structures updated in place (dhd_ip.c). */
module PshPoolHeap {
  import opened PshPool

  class Psh {
    var endSeq: int
    var next: Psh?

    constructor ()
      ensures next == null
    {
      endSeq, next := 0, null;
    }
  }

  /** A table slot: the flow, the ends of its chain, and when it was last used. */
  datatype Info = Info(flow: FourTuple, head: Psh?, tail: Psh?, last: int)

  // ---------------------------------------------------------------- lists that share no element

  ghost predicate Unique(ls: seq<seq<Psh>>) {
    forall a, i, b, j :: 0 <= a < |ls| && 0 <= i < |ls[a]| && 0 <= b < |ls| && 0 <= j < |ls[b]| && (a != b || i != j) ==>
      ls[a][i] != ls[b][j]
  }

  ghost predicate Member(ls: seq<seq<Psh>>, x: Psh) {
    exists a, i :: 0 <= a < |ls| && 0 <= i < |ls[a]| && ls[a][i] == x
  }

  function Total(ls: seq<seq<Psh>>): nat {
    if ls == [] then 0 else |ls[0]| + Total(ls[1..])
  }

  /** The first element of list a goes to the front of list 0. */
  ghost function Recycled(ls: seq<seq<Psh>>, a: nat): seq<seq<Psh>>
    requires 0 < a < |ls| && ls[a] != []
  {
    ls[a := ls[a][1..]][0 := [ls[a][0]] + ls[0]]
  }

  /** The first element of list 0 goes to the end of list a. */
  ghost function Issued(ls: seq<seq<Psh>>, a: nat): seq<seq<Psh>>
    requires 0 < a < |ls| && ls[0] != []
  {
    ls[a := ls[a] + [ls[0][0]]][0 := ls[0][1..]]
  }

  lemma {:induction false} TotalUpdate(ls: seq<seq<Psh>>, a: nat, s: seq<Psh>)
    requires a < |ls|
    ensures Total(ls[a := s]) == Total(ls) - |ls[a]| + |s|
  {
    if a == 0 {
      assert ls[a := s][1..] == ls[1..];
    } else {
      assert ls[a := s][1..] == ls[1..][a - 1 := s];
      TotalUpdate(ls[1..], a - 1, s);
    }
  }

  lemma RecycledUnique(ls: seq<seq<Psh>>, a: nat)
    requires Unique(ls) && 0 < a < |ls| && ls[a] != []
    ensures Unique(Recycled(ls, a))
  {
  }

  lemma IssuedUnique(ls: seq<seq<Psh>>, a: nat)
    requires Unique(ls) && 0 < a < |ls| && ls[0] != []
    ensures Unique(Issued(ls, a))
  {
  }

  lemma RecycledTotal(ls: seq<seq<Psh>>, a: nat)
    requires 0 < a < |ls| && ls[a] != []
    ensures Total(Recycled(ls, a)) == Total(ls)
  {
    TotalUpdate(ls, a, ls[a][1..]);
    TotalUpdate(ls[a := ls[a][1..]], 0, [ls[a][0]] + ls[0]);
  }

  lemma IssuedTotal(ls: seq<seq<Psh>>, a: nat)
    requires 0 < a < |ls| && ls[0] != []
    ensures Total(Issued(ls, a)) == Total(ls)
  {
    TotalUpdate(ls, a, ls[a] + [ls[0][0]]);
    TotalUpdate(ls[a := ls[a] + [ls[0][0]]], 0, ls[0][1..]);
  }

  lemma RecycledMember(ls: seq<seq<Psh>>, a: nat, x: Psh)
    requires 0 < a < |ls| && ls[a] != []
    ensures Member(ls, x) ==> Member(Recycled(ls, a), x)
  {
    if Member(ls, x) {
      var r := Recycled(ls, a);
      var b, j :| 0 <= b < |ls| && 0 <= j < |ls[b]| && ls[b][j] == x;
      assert if b == 0 then r[0][j + 1] == x else if b != a then r[b][j] == x
             else if j == 0 then r[0][0] == x else r[a][j - 1] == x;
    }
  }

  lemma IssuedMember(ls: seq<seq<Psh>>, a: nat, x: Psh)
    requires 0 < a < |ls| && ls[0] != []
    ensures Member(ls, x) ==> Member(Issued(ls, a), x)
  {
    if Member(ls, x) {
      var r := Issued(ls, a);
      var b, j :| 0 <= b < |ls| && 0 <= j < |ls[b]| && ls[b][j] == x;
      assert if b == 0 && j == 0 then r[a][|ls[a]|] == x else if b == 0 then r[0][j - 1] == x else r[b][j] == x;
    }
  }

  /** Every element of the pool is in exactly one list, once. */
  ghost predicate Partition(ls: seq<seq<Psh>>, pool: set<Psh>) {
    Unique(ls) && Total(ls) == PSH_INFO_MAXNUM && forall x :: x in pool ==> Member(ls, x)
  }

  lemma RecycledPartition(ls: seq<seq<Psh>>, a: nat, pool: set<Psh>)
    requires Partition(ls, pool) && 0 < a < |ls| && ls[a] != []
    ensures Partition(Recycled(ls, a), pool)
  {
    RecycledUnique(ls, a);
    RecycledTotal(ls, a);
    forall x | x in pool ensures Member(Recycled(ls, a), x) {
      RecycledMember(ls, a, x);
    }
  }

  lemma IssuedPartition(ls: seq<seq<Psh>>, a: nat, pool: set<Psh>)
    requires Partition(ls, pool) && 0 < a < |ls| && ls[0] != []
    ensures Partition(Issued(ls, a), pool)
  {
    IssuedUnique(ls, a);
    IssuedTotal(ls, a);
    forall x | x in pool ensures Member(Issued(ls, a), x) {
      IssuedMember(ls, a, x);
    }
  }

  /** The lists once the empty chain of entry i is dropped and the last one takes its place. */
  ghost function Dropped(ls: seq<seq<Psh>>, i: nat): seq<seq<Psh>>
    requires i + 1 < |ls|
  {
    [ls[0]] + SwapDrop(ls[1..], i)
  }

  lemma {:induction false} TotalLast(ls: seq<seq<Psh>>)
    requires ls != []
    ensures Total(ls) == Total(ls[..|ls| - 1]) + |ls[|ls| - 1]|
  {
    if |ls| > 1 {
      TotalLast(ls[1..]);
      assert ls[1..][..|ls| - 2] == ls[..|ls| - 1][1..];
    }
  }

  lemma DroppedAt(ls: seq<seq<Psh>>, i: nat, b: nat)
    requires i + 1 < |ls| && b + 1 < |ls|
    ensures Dropped(ls, i)[b] == if b == i + 1 then ls[|ls| - 1] else ls[b]
  {
  }

  lemma DroppedIs(ls: seq<seq<Psh>>, i: nat)
    requires i + 1 < |ls|
    ensures Dropped(ls, i) == ls[i + 1 := ls[|ls| - 1]][..|ls| - 1]
  {
  }

  lemma DroppedTotal(ls: seq<seq<Psh>>, i: nat)
    requires i + 1 < |ls| && ls[i + 1] == []
    ensures Total(Dropped(ls, i)) == Total(ls)
  {
    var n := |ls| - 1;
    TotalUpdate(ls, i + 1, ls[n]);
    TotalLast(ls[i + 1 := ls[n]]);
    DroppedIs(ls, i);
  }

  lemma DroppedUnique(ls: seq<seq<Psh>>, i: nat)
    requires Unique(ls) && i + 1 < |ls|
    ensures Unique(Dropped(ls, i))
  {
    var d := Dropped(ls, i);
    forall a, k, b, j | 0 <= a < |d| && 0 <= k < |d[a]| && 0 <= b < |d| && 0 <= j < |d[b]| && (a != b || k != j)
      ensures d[a][k] != d[b][j]
    {
      DroppedAt(ls, i, a);
      DroppedAt(ls, i, b);
    }
  }

  lemma DroppedMember(ls: seq<seq<Psh>>, i: nat, x: Psh)
    requires i + 1 < |ls| && ls[i + 1] == [] && Member(ls, x)
    ensures Member(Dropped(ls, i), x)
  {
    var b, j :| 0 <= b < |ls| && 0 <= j < |ls[b]| && ls[b][j] == x;
    var b' := if b == |ls| - 1 then i + 1 else b;
    DroppedAt(ls, i, b');
    assert Dropped(ls, i)[b'][j] == x;
  }

  lemma DroppedPartition(ls: seq<seq<Psh>>, i: nat, pool: set<Psh>)
    requires Partition(ls, pool) && i + 1 < |ls| && ls[i + 1] == []
    ensures Partition(Dropped(ls, i), pool)
  {
    DroppedTotal(ls, i);
    DroppedUnique(ls, i);
    forall x | x in pool ensures Member(Dropped(ls, i), x) {
      DroppedMember(ls, i, x);
    }
  }

  /** The chain that starts at `head`. */
  ghost predicate Linked(head: Psh?, s: seq<Psh>)
    reads s
  {
    && head == (if s == [] then null else s[0])
    && forall i {:trigger s[i].next} :: 0 <= i < |s| ==> s[i].next == if i + 1 < |s| then s[i + 1] else null
  }

  ghost function Last(s: seq<Psh>): Psh? {
    if s == [] then null else s[|s| - 1]
  }

  /** Link an element behind the chain of a table slot. */
  method AttachTo(t: Info, x: Psh, end: int, ghost s: seq<Psh>, ghost e: Entry) returns (t': Info)
    requires EntryOk(t, s, e) && x.next == null && x !in s
    requires forall i, j :: 0 <= i < j < |s| ==> s[i] != s[j]
    modifies x, s
    ensures EntryOk(t', s + [x], e.(ends := e.ends + [end])) && t'.tail == x
    ensures forall y :: y in s && y != t.tail ==> y.next == old(y.next)
  {
    x.endSeq := end;
    t' := t.(tail := x);
    if t.head == null {
      t' := t'.(head := x);
    } else {
      t.tail.next := x;
    }
  }

  class TcpackSup {
    var cnt: nat
    const tbl: array<Info>
    var free: Psh?
    ghost var abs: seq<Entry>    // the table as a client sees it
    ghost var ls: seq<seq<Psh>>  // ls[0]: the free list, ls[i + 1]: the chain of tbl[i]
    ghost var pool: set<Psh>

    /** The lists are linked as `ls` says and show `abs`. The tail of an empty chain may be stale. */
    ghost predicate Chained()
      reads this, tbl, pool
    {
      && tbl.Length == INFO_MAXNUM && cnt <= INFO_MAXNUM && |ls| == cnt + 1 && |abs| == cnt
      && (forall a, i :: 0 <= a < |ls| && 0 <= i < |ls[a]| ==> ls[a][i] in pool)
      && Linked(free, ls[0])
      && (forall i :: 0 <= i < cnt ==> EntryOk(tbl[i], ls[i + 1], abs[i]))
    }

    /** The lists are in order and share out the pool. */
    ghost predicate Ok()
      reads this, tbl, pool
    {
      Chained() && Partition(ls, pool) == true
    }

    ghost predicate Valid()
      reads this, tbl, pool
    {
      && Ok()
      && Tails()
      && DistinctFlows(abs)
    }

    /** An element that has been taken out of its list. */
    ghost predicate Loose(x: Psh)
      reads this, x
    {
      x in pool && x.next == null && forall a, i :: 0 <= a < |ls| && 0 <= i < |ls[a]| ==> ls[a][i] != x
    }

    /** `_tdata_psh_info_pool_enq`. */
    method PoolEnq(x: Psh)
      requires Chained() && Loose(x)
      modifies this`free, this`ls, x
      ensures Chained() && ls == old(ls)[0 := [x] + old(ls[0])] && x.endSeq == old(x.endSeq)
    {
      x.next := free;
      free := x;
      ls := ls[0 := [x] + ls[0]];
    }

    /** `_tdata_psh_info_pool_deq`: null when the pool is used up. */
    method PoolDeq() returns (x: Psh?)
      requires Chained() && Unique(ls)
      modifies this`free, this`ls, free
      ensures Chained() && Unique(ls) && (x == null <==> old(ls[0]) == [])
      ensures x == null ==> ls == old(ls) && free == null
      ensures x != null ==> Loose(x) && x == old(ls[0])[0] && ls == old(ls)[0 := old(ls[0])[1..]]
    {
      x := free;
      if x != null {
        free := x.next;
        x.next := null;
        ls := ls[0 := ls[0][1..]];
      }
    }

    /** Take the first element off chain i. */
    method Unhook(i: nat) returns (x: Psh)
      requires Chained() && Unique(ls) && i < cnt && tbl[i].head != null
      modifies this`ls, this`abs, tbl, tbl[i].head
      ensures Chained() && Unique(ls) && Loose(x) && x == old(ls[i + 1])[0] && ls == old(ls)[i + 1 := old(ls[i + 1])[1..]]
      ensures abs == old(abs)[i := old(abs[i]).(ends := old(abs[i].ends)[1..])]
      ensures forall j :: 0 <= j < tbl.Length && j != i ==> tbl[j] == old(tbl[j])
      ensures tbl[i].tail == old(tbl[i].tail)
    {
      x := tbl[i].head;
      tbl[i] := tbl[i].(head := x.next);
      x.next := null;
      ls := ls[i + 1 := ls[i + 1][1..]];
      abs := abs[i := abs[i].(ends := abs[i].ends[1..])];
    }

    /** Put an element with end number `end` at the end of chain i. */
    method Attach(i: nat, x: Psh, end: int)
      requires Chained() && Unique(ls) && Loose(x) && i < cnt
      modifies this`ls, this`abs, tbl, x, ls[i + 1]
      ensures Chained() && ls == old(ls)[i + 1 := old(ls[i + 1]) + [x]]
      ensures abs == old(abs)[i := old(abs[i]).(ends := old(abs[i].ends) + [end])]
      ensures forall j :: 0 <= j < tbl.Length && j != i ==> tbl[j] == old(tbl[j])
      ensures tbl[i].tail == x
    {
      tbl[i] := AttachTo(tbl[i], x, end, ls[i + 1], abs[i]);
      ls := ls[i + 1 := ls[i + 1] + [x]];
      abs := abs[i := abs[i].(ends := abs[i].ends + [end])];
    }

    ghost function Now(): View
      reads this, tbl
    {
      View(tbl[..], ls, abs)
    }

    /** One turn of the loops that give a chain back to the pool. */
    method Recycle(i: nat)
      requires Ok() && i < cnt && tbl[i].head != null
      modifies this`free, this`ls, this`abs, tbl, pool
      ensures Ok() && OnlyChain(i, old(Now()), Now()) == true
      ensures abs[i].ends == old(abs[i].ends)[1..] && |ls[i + 1]| < old(|ls[i + 1]|)
    {
      ghost var v := Now();
      var x := Unhook(i);
      PoolEnq(x);
      RecycledOnly(i, v, Now(), pool);
    }

    /** Give the whole chain of entry i back to the pool. */
    method DrainChain(i: nat)
      requires Ok() && i < cnt
      modifies this`free, this`ls, this`abs, tbl, pool
      ensures Ok() && ls[i + 1] == [] && abs[i].ends == []
      ensures OnlyChain(i, old(Now()), Now()) == true
    {
      ghost var v := Now();
      NothingChanged(i, v);
      while tbl[i].head != null
        invariant Ok() && OnlyChain(i, v, Now())
        decreases |ls[i + 1]|
      {
        ghost var w := Now();
        Recycle(i);
        OnlyChainTwice(i, v, w, Now());
      }
    }

    lemma AsRows()
      requires Chained()
      ensures Rows(tbl[..cnt], free, ls, abs, pool)
    {
    }

    lemma FromRows()
      requires tbl.Length == INFO_MAXNUM && cnt <= INFO_MAXNUM && Rows(tbl[..cnt], free, ls, abs, pool) == true
      ensures Chained()
    {
      assert forall j :: 0 <= j < cnt ==> tbl[j] == tbl[..cnt][j];
    }

    /** Entry i has given back its chain: the last entry moves into its place. */
    method DropEntry(i: nat)
      requires Ok() && i < cnt && ls[i + 1] == []
      modifies this`cnt, this`ls, this`abs, tbl
      ensures Ok() && abs == SwapDrop(old(abs), i) && ls == Dropped(old(ls), i) && cnt == old(cnt) - 1
      ensures tbl[..cnt] == SwapDrop(old(tbl[..cnt]), i)
    {
      AsRows();
      DroppedPartition(ls, i, pool);
      DroppedRows(tbl[..cnt], free, ls, abs, pool, i);
      MoveLast(i);
      ls := Dropped(ls, i);
      abs := SwapDrop(abs, i);
      FromRows();
    }

    /** The table side of a removal. */
    method MoveLast(i: nat)
      requires i < cnt <= tbl.Length
      modifies this`cnt, tbl
      ensures cnt == old(cnt) - 1 && tbl[..cnt] == SwapDrop(old(tbl[..cnt]), i)
    {
      cnt := cnt - 1;
      if i < cnt {
        tbl[i] := tbl[cnt];
      }
      tbl[cnt] := Info(FourTuple(0, 0, 0, 0), null, null, 0);
    }

    /** Each tail is the last element of its chain, or null when the chain is empty. */
    ghost predicate Tails()
      reads this, tbl
    {
      && cnt <= tbl.Length && |ls| == cnt + 1
      && forall i :: 0 <= i < cnt ==> tbl[i].tail == Last(ls[i + 1])
    }

    /** The slot of a flow, or `cnt`. */
    method Find(flow: FourTuple) returns (i: nat)
      requires Valid()
      ensures i <= cnt && (i < cnt ==> abs[i].flow == flow) && (i == cnt ==> !HasFlow(abs, flow))
    {
      i := 0;
      while i < cnt && tbl[i].flow != flow
        invariant i <= cnt && forall j :: 0 <= j < i ==> abs[j].flow != flow
      {
        i := i + 1;
      }
    }

    /** `dhd_tcpdata_psh_acked`: an outgoing ACK covers pending segments of the reverse flow. */
    method PshAcked(flow: FourTuple, ack: int) returns (ret: bool)
      requires Valid()
      modifies this`free, this`ls, this`abs, tbl, pool
      ensures Valid()
      ensures abs == AckedTable(old(abs), flow.Reverse(), ack)
      ensures ret <==> abs != old(abs)
    {
      ret := false;
      var i := Find(flow.Reverse());
      AckedTableIs(abs, i, flow.Reverse(), ack);
      if i < cnt {
        ret := AckChain(i, ack);
      }
    }

    /** Recycle the covered elements of chain i. */
    method AckChain(i: nat, ack: int) returns (ret: bool)
      requires Ok() && Tails() && i < cnt
      modifies this`free, this`ls, this`abs, tbl, pool
      ensures Ok() && abs == old(abs)[i := old(abs[i]).(ends := AckedEnds(old(abs[i]).ends, ack))]
      ensures ret <==> AckedEnds(old(abs[i]).ends, ack) != old(abs[i].ends)
      ensures Tails()
    {
      ret := AckLoop(i, ack);
      if tbl[i].head == null {
        ClearTail(i);
      }
    }

    method AckLoop(i: nat, ack: int) returns (ret: bool)
      requires Ok() && i < cnt
      modifies this`free, this`ls, this`abs, tbl, pool
      ensures Ok() && OnlyChain(i, old(Now()), Now()) == true
      ensures abs[i].ends == AckedEnds(old(abs[i]).ends, ack) && (ret <==> abs[i].ends != old(abs[i].ends))
    {
      ghost var v := Now();
      NothingChanged(i, v);
      ret := false;
      while tbl[i].head != null && SeqGe(ack, tbl[i].head.endSeq)
        invariant Ok() && OnlyChain(i, v, Now())
        invariant AckedEnds(abs[i].ends, ack) == AckedEnds(v.abs[i].ends, ack)
        invariant if ret then |abs[i].ends| < |v.abs[i].ends| else abs[i].ends == v.abs[i].ends
        decreases |ls[i + 1]|
      {
        ghost var w := Now();
        Recycle(i);
        OnlyChainTwice(i, v, w, Now());
        ret := true;
      }
    }

    /** The tail of a chain that is empty now. */
    method ClearTail(i: nat)
      requires Ok() && i < cnt && tbl[i].head == null
      modifies tbl
      ensures Ok() && tbl[i].tail == null && ls[i + 1] == []
      ensures forall j :: 0 <= j < tbl.Length && j != i ==> tbl[j] == old(tbl[j])
    {
      tbl[i] := tbl[i].(tail := null);
    }

    lemma TailsFromRows()
      requires cnt <= tbl.Length && TailsOn(tbl[..cnt], ls)
      ensures Tails()
    {
      assert forall j :: 0 <= j < cnt ==> tbl[j] == tbl[..cnt][j];
    }

    lemma TailsAsRows()
      requires Tails()
      ensures TailsOn(tbl[..cnt], ls)
    {
    }

    ghost predicate Sound()
      reads this, tbl, pool
    {
      Ok() && Tails() == true
    }

    /** An entry has aged out: its chain goes back to the pool, the last entry takes its place. */
    method AgeOut(i: nat)
      requires Sound() && i < cnt == |abs|
      modifies this`cnt, this`free, this`ls, this`abs, tbl, pool
      ensures Sound() && abs == SwapDrop(old(abs), i) && cnt == old(cnt) - 1
    {
      ghost var v := Now();
      SwapDropUpdated(abs, i, abs[i].(ends := []));
      TailsAsRows();
      DrainChain(i);
      TailsDropped(v, Now(), i);
      DropEntry(i);
      TailsFromRows();
    }

    /** The entry of a flow that has been seen again. */
    method Touch(i: nat, now: int)
      requires Sound() && i < cnt == |abs|
      modifies this`abs, tbl
      ensures Sound() && abs == old(abs)[i := old(abs[i]).(last := now)]
    {
      tbl[i] := tbl[i].(last := now);
      abs := abs[i := abs[i].(last := now)];
    }

    lemma Row(i: nat)
      requires Sound()
      ensures cnt == |abs| <= tbl.Length == INFO_MAXNUM
      ensures i < cnt ==> tbl[i].flow == abs[i].flow && tbl[i].last == abs[i].last
    {
    }

    /** One turn of the scan at an entry, with the clock reading `now`. */
    method ScanTurn(i: nat, flow: FourTuple, now: int) returns (i': nat, found: bool)
      requires Sound() && i < cnt == |abs|
      modifies this`cnt, this`free, this`ls, this`abs, tbl, pool
      ensures Sound() && i' <= cnt == |abs|
      ensures found <==> old(abs)[i].flow == flow
      ensures found ==> i' == i && abs == old(abs)[i := old(abs[i]).(last := now)]
      ensures !found ==>
        if Stale(old(abs[i]), now) then i' == i && abs == SwapDrop(old(abs), i)
        else i' == i + 1 && abs == old(abs)
      ensures !found ==> cnt - i' < old(cnt) - i
    {
      Row(i);
      i', found := i, false;
      if tbl[i].flow == flow {
        Touch(i, now);
        found := true;
      } else if Elapsed(now, tbl[i].last) > TIMEOUT {
        AgeOut(i);
      } else {
        i' := i + 1;
      }
      Row(0);
    }

    /** The scan of `dhd_tcpdata_info_get`; turn k reads the clock as `clock(k)`. */
    method ScanTable(flow: FourTuple, clock: nat -> int) returns (i: nat)
      requires Sound()
      modifies this`cnt, this`free, this`ls, this`abs, tbl, pool
      ensures Sound() && (abs, i) == Scan(old(abs), 0, flow, clock, 0)
    {
      i := 0;
      var k, found := 0, false;
      ghost var end := Scan(abs, 0, flow, clock, 0);
      Row(0);
      while i < cnt && !found
        invariant Sound() && i <= cnt == |abs|
        invariant if found then (abs, i) == end else Scan(abs, i, flow, clock, k) == end
        decreases !found, cnt - i
      {
        i, found := ScanTurn(i, flow, clock(k));
        k := k + 1;
      }
    }

    /** A new entry at the end of the table. */
    method AddEntry(flow: FourTuple, now: int)
      requires Sound() && cnt == |abs| < INFO_MAXNUM
      modifies this`cnt, this`ls, this`abs, tbl
      ensures Sound() && cnt == old(cnt) + 1 && abs == old(abs) + [Entry(flow, [], now)]
    {
      AsRows();
      TailsAsRows();
      AddedPartition(ls, pool);
      AddedRows(tbl[..cnt], free, ls, abs, pool, flow, now);
      tbl[cnt] := Info(flow, null, null, now);
      cnt := cnt + 1;
      ls := ls + [[]];
      abs := abs + [Entry(flow, [], now)];
      assert tbl[..cnt] == old(tbl[..cnt]) + [Info(flow, null, null, now)];
      FromRows();
      TailsFromRows();
    }

    /** The elements on the free list and those in chains come to the whole pool. */
    lemma FreeCount()
      requires Ok()
      ensures |ls| > 0 && |ls[0]| + Held(abs) == PSH_INFO_MAXNUM
    {
      forall i | 0 <= i < |abs| ensures |ls[1..][i]| == |abs[i].ends| {
        assert EntryOk(tbl[i], ls[i + 1], abs[i]);
      }
      HeldIsTotal(ls[1..], abs);
    }

    /** Record a segment of entry i, if the pool has an element left. */
    method PutSegment(i: nat, end: int) returns (ok: bool)
      requires Sound() && i < cnt == |abs|
      modifies this`free, this`ls, this`abs, tbl, pool
      ensures Sound() && ok == (Held(old(abs)) < PSH_INFO_MAXNUM)
      ensures abs == if ok then old(abs)[i := old(abs[i]).(ends := old(abs[i].ends) + [end])] else old(abs)
    {
      FreeCount();
      TailsAsRows();
      var x := PoolDeq();
      ok := x != null;
      if ok {
        TailsDequeued(tbl[..cnt], old(ls), ls[0]);
        IssueTo(i, x, end, old(ls));
      }
    }

    /** Hang an element just taken from the free list on chain i. */
    method IssueTo(i: nat, x: Psh, end: int, ghost l: seq<seq<Psh>>)
      requires Chained() && Unique(ls) && Loose(x) && i < cnt
      requires |l| > 0 && l[0] != [] && x == l[0][0] && ls == l[0 := l[0][1..]]
      requires Partition(l, pool) == true && TailsOn(tbl[..cnt], ls)
      modifies this`ls, this`abs, tbl, x, ls[i + 1]
      ensures Sound() == true && abs == old(abs)[i := old(abs[i]).(ends := old(abs[i].ends) + [end])]
    {
      ghost var t := tbl[..cnt];
      Attach(i, x, end);
      IssuedSteps(l, ls, i + 1, pool);
      TailsIssued(t, tbl[..cnt], old(ls), i, x);
      TailsFromRows();
    }

    /** `dhd_tcpdata_info_get`: a PSH segment of `flow` that ends at `end` came in. True when the pool is used up. */
    method InfoGet(flow: FourTuple, end: int, clock: nat -> int, now: int) returns (ret: bool)
      requires Valid()
      modifies this`cnt, this`free, this`ls, this`abs, tbl, pool
      ensures Valid() && abs == Received(old(abs), flow, end, clock, now)
      ensures ret <==> Placed(old(abs), flow, clock) && !Room(old(abs), flow, clock)
    {
      ReceivedDistinct(abs, flow, end, clock, now);
      var i := ScanTable(flow, clock);
      Row(0);
      ghost var u := abs;
      if i == cnt {
        if i >= INFO_MAXNUM {
          return false;
        }
        AddEntry(flow, now);
        HeldAdded(u, flow, now);
      }
      var ok := PutSegment(i, end);
      ret := !ok;
    }

    /** A segment of a flow that is recorded, then its ACK on the way back. */
    method RecordThenAck(flow: FourTuple, end: int, clock: nat -> int, now: int) returns (full: bool, acked: bool)
      requires Valid()
      requires forall j :: 0 <= j < |Pending(abs, flow)| ==> SeqGe(end, Pending(abs, flow)[j])
      modifies this`cnt, this`free, this`ls, this`abs, tbl, pool
      ensures Valid()
      ensures Placed(old(abs), flow, clock) && !full ==> acked && Pending(abs, flow) == []
    {
      ghost var t := abs;
      full := InfoGet(flow, end, clock, now);
      if Placed(t, flow, clock) && Room(t, flow, clock) {
        RecordedIsAcked(t, flow, end, clock, now);
      }
      acked := PshAcked(flow.Reverse(), end);
    }

    /** `_tdata_psh_info_pool_init`: every element of a new pool goes on the free list. */
    constructor ()
      ensures Valid() && abs == [] && |pool| == PSH_INFO_MAXNUM
      ensures fresh(tbl) && fresh(pool)
    {
      cnt, free, ls, abs, pool := 0, null, [[]], [], {};
      tbl := new Info[INFO_MAXNUM](i => Info(FourTuple(0, 0, 0, 0), null, null, 0));
      new;
      for k := 0 to PSH_INFO_MAXNUM
        invariant Filling(k) && fresh(pool) && fresh(tbl)
      {
        AddElement(k);
      }
      OneList(ls, pool);
      TotalOne(ls);
    }

    /** Setting up: the first k elements of the pool are on the free list. */
    ghost predicate Filling(k: nat)
      reads this, tbl, pool
    {
      && Chained() && cnt == 0 && |ls[0]| == |pool| == k
      && (forall i, j :: 0 <= i < j < |ls[0]| ==> ls[0][i] != ls[0][j])
      && (forall x :: x in pool ==> x in ls[0])
    }

    method AddElement(ghost k: nat)
      requires Filling(k)
      modifies this`free, this`ls, this`pool
      ensures Filling(k + 1) && fresh(pool - old(pool))
    {
      var x := new Psh();
      assert x !in ls[0] && |pool + {x}| == k + 1;
      pool := pool + {x};
      PoolEnq(x);
    }

    /** The first loop of `_tdata_psh_info_pool_deinit`: all chains go back to the pool. */
    method DrainAll()
      requires Valid()
      modifies this`free, this`ls, this`abs, tbl, pool
      ensures Ok() && cnt == |abs| && Held(abs) == 0
    {
      Row(0);
      var i := 0;
      while i < cnt
        invariant Ok() && i <= cnt == |abs| == |ls| - 1
        invariant forall j :: 0 <= j < i ==> abs[j].ends == []
      {
        DrainChain(i);
        ClearTail(i);
        i := i + 1;
      }
      HeldNothing(abs);
    }

    /** `_tdata_psh_info_pool_deinit`: the count of recollected elements is the size of the pool. */
    method PoolDeinit() returns (n: nat)
      requires Valid()
      modifies this`free, this`ls, this`abs, tbl, pool
      ensures n == PSH_INFO_MAXNUM
    {
      DrainAll();
      FreeCount();
      n := 0;
      while free != null
        invariant Chained() && Unique(ls) && n + |ls[0]| == PSH_INFO_MAXNUM
        decreases |ls[0]|
      {
        var x := PoolDeq();
        n := n + 1;
      }
    }
  }

  lemma TotalOne(ls: seq<seq<Psh>>)
    requires |ls| == 1
    ensures Total(ls) == |ls[0]|
  {
    assert ls[1..] == [];
  }

  /** One list that holds every element of the pool, once. */
  lemma OneList(ls: seq<seq<Psh>>, pool: set<Psh>)
    requires |ls| == 1 && (forall i, j :: 0 <= i < j < |ls[0]| ==> ls[0][i] != ls[0][j])
    requires forall x :: x in pool ==> x in ls[0]
    ensures Unique(ls) && forall x :: x in pool ==> Member(ls, x)
  {
    forall x | x in pool ensures Member(ls, x) {
      var i :| 0 <= i < |ls[0]| && ls[0][i] == x;
    }
  }

  lemma {:induction false} HeldNothing(t: seq<Entry>)
    requires forall j :: 0 <= j < |t| ==> t[j].ends == []
    ensures Held(t) == 0
  {
    if t != [] {
      HeldNothing(t[1..]);
    }
  }

  lemma {:induction false} HeldIsTotal(ls: seq<seq<Psh>>, abs: seq<Entry>)
    requires |ls| == |abs| && forall i :: 0 <= i < |abs| ==> |ls[i]| == |abs[i].ends|
    ensures Held(abs) == Total(ls)
  {
    if ls != [] {
      HeldIsTotal(ls[1..], abs[1..]);
    }
  }

  lemma {:induction false} HeldAdded(t: seq<Entry>, flow: FourTuple, now: int)
    ensures Held(t + [Entry(flow, [], now)]) == Held(t)
  {
    var e := Entry(flow, [], now);
    if t == [] {
      assert Held([e]) == 0 + Held([e][1..]);
    } else {
      HeldAdded(t[1..], flow, now);
      assert (t + [e])[1..] == t[1..] + [e];
    }
  }

  lemma AddedPartition(ls: seq<seq<Psh>>, pool: set<Psh>)
    requires Partition(ls, pool)
    ensures Partition(ls + [[]], pool)
  {
    var l := ls + [[]];
    TotalLast(l);
    assert l[..|ls|] == ls;
    forall x | x in pool ensures Member(l, x) {
      var b, j :| 0 <= b < |ls| && 0 <= j < |ls[b]| && ls[b][j] == x;
      assert l[b][j] == x;
    }
  }

  lemma IssuedSteps(l: seq<seq<Psh>>, r: seq<seq<Psh>>, a: nat, pool: set<Psh>)
    requires Partition(l, pool) == true && 0 < a < |l| && l[0] != []
    requires var m := l[0 := l[0][1..]]; r == m[a := m[a] + [l[0][0]]]
    ensures Partition(r, pool)
  {
    assert r == Issued(l, a);
    IssuedPartition(l, a, pool);
  }

  ghost predicate TailsOn(ts: seq<Info>, ls: seq<seq<Psh>>) {
    |ls| == |ts| + 1 && forall j :: 0 <= j < |ts| ==> ts[j].tail == Last(ls[j + 1])
  }

  lemma TailsIssued(t: seq<Info>, t': seq<Info>, ls: seq<seq<Psh>>, i: nat, x: Psh)
    requires TailsOn(t, ls) && i < |t| == |t'| && t'[i].tail == x
    requires forall j :: 0 <= j < |t| && j != i ==> t'[j] == t[j]
    ensures TailsOn(t', ls[i + 1 := ls[i + 1] + [x]])
  {
  }

  /** Taking an element off the free list leaves the tails right. */
  lemma TailsDequeued(t: seq<Info>, ls: seq<seq<Psh>>, s: seq<Psh>)
    requires TailsOn(t, ls)
    ensures TailsOn(t, ls[0 := s])
  {
  }

  /** Draining chain i and dropping entry i leave the tails of the others right. */
  lemma TailsDropped(v: View, w: View, i: nat)
    requires OnlyChain(i, v, w) && TailsOn(v.t[..|v.abs|], v.ls)
    ensures TailsOn(SwapDrop(w.t[..|w.abs|], i), Dropped(w.ls, i))
  {
    var n := |v.abs|;
    forall j: nat | j < n && j != i ensures w.t[j].tail == Last(w.ls[j + 1]) {
      assert v.t[..n][j] == v.t[j];
    }
  }

  /** What `Chained` says, on the rows of the table in use. */
  ghost predicate Rows(ts: seq<Info>, free: Psh?, ls: seq<seq<Psh>>, abs: seq<Entry>, pool: set<Psh>)
    reads pool
  {
    && |ls| == |ts| + 1 && |abs| == |ts|
    && (forall a, i :: 0 <= a < |ls| && 0 <= i < |ls[a]| ==> ls[a][i] in pool)
    && Linked(free, ls[0])
    && (forall i :: 0 <= i < |ts| ==> EntryOk(ts[i], ls[i + 1], abs[i]))
  }

  lemma AddedRows(ts: seq<Info>, free: Psh?, ls: seq<seq<Psh>>, abs: seq<Entry>, pool: set<Psh>, flow: FourTuple, now: int)
    requires Rows(ts, free, ls, abs, pool) && TailsOn(ts, ls)
    ensures Rows(ts + [Info(flow, null, null, now)], free, ls + [[]], abs + [Entry(flow, [], now)], pool)
    ensures TailsOn(ts + [Info(flow, null, null, now)], ls + [[]])
  {
  }

  lemma DroppedRows(ts: seq<Info>, free: Psh?, ls: seq<seq<Psh>>, abs: seq<Entry>, pool: set<Psh>, i: nat)
    requires i < |ts| && Rows(ts, free, ls, abs, pool)
    ensures Rows(SwapDrop(ts, i), free, Dropped(ls, i), SwapDrop(abs, i), pool)
  {
    DroppedMembers(ls, i, pool);
  }

  lemma DroppedMembers(ls: seq<seq<Psh>>, i: nat, pool: set<Psh>)
    requires i + 1 < |ls| && forall a, k :: 0 <= a < |ls| && 0 <= k < |ls[a]| ==> ls[a][k] in pool
    ensures forall a, k :: 0 <= a < |ls| - 1 && 0 <= k < |Dropped(ls, i)[a]| ==> Dropped(ls, i)[a][k] in pool
  {
    forall b: nat | b + 1 < |ls| ensures Dropped(ls, i)[b] == if b == i + 1 then ls[|ls| - 1] else ls[b] {
      DroppedAt(ls, i, b);
    }
  }

  /** The table at one moment. */
  datatype View = View(t: seq<Info>, ls: seq<seq<Psh>>, abs: seq<Entry>)

  /** From v to w nothing changed but chain i and the free list. */
  ghost predicate OnlyChain(i: nat, v: View, w: View) {
    && i < |v.abs| == |w.abs| <= |v.t| == |w.t| && |v.ls| == |w.ls| == |v.abs| + 1
    && w.abs == v.abs[i := v.abs[i].(ends := w.abs[i].ends)]
    && (forall j :: 0 <= j < |v.t| && j != i ==> w.t[j] == v.t[j])
    && (forall j :: 1 <= j < |v.ls| && j != i + 1 ==> w.ls[j] == v.ls[j])
  }

  lemma NothingChanged(i: nat, v: View)
    requires i < |v.abs| <= |v.t| && |v.ls| == |v.abs| + 1
    ensures OnlyChain(i, v, v)
  {
  }

  lemma OnlyChainTwice(i: nat, v: View, w: View, x: View)
    requires OnlyChain(i, v, w) && OnlyChain(i, w, x)
    ensures OnlyChain(i, v, x)
  {
  }

  lemma RecycledOnly(i: nat, v: View, w: View, pool: set<Psh>)
    requires i < |v.abs| <= |v.t| == |w.t| && |v.ls| == |v.abs| + 1 && v.ls[i + 1] != [] && v.abs[i].ends != []
    requires var l := v.ls[i + 1 := v.ls[i + 1][1..]]; w.ls == l[0 := [v.ls[i + 1][0]] + l[0]]
    requires w.abs == v.abs[i := v.abs[i].(ends := v.abs[i].ends[1..])]
    requires forall j :: 0 <= j < |v.t| && j != i ==> w.t[j] == v.t[j]
    requires Partition(v.ls, pool) == true
    ensures OnlyChain(i, v, w) && Partition(w.ls, pool)
  {
    assert w.ls == Recycled(v.ls, i + 1);
    RecycledPartition(v.ls, i + 1, pool);
  }

  /** A table slot with its chain, as a client sees them. */
  ghost predicate EntryOk(t: Info, s: seq<Psh>, e: Entry)
    reads s
  {
    && Linked(t.head, s) && (s != [] ==> t.tail == Last(s))
    && t.flow == e.flow && t.last == e.last
    && |s| == |e.ends| && forall j :: 0 <= j < |s| ==> s[j].endSeq == e.ends[j]
  }
}
