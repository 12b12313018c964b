/**
  Ordered delivery of the reorder buffer: what the index arithmetic of one hint
  means in terms of the dongle's absolute packet numbers.
 */
module ReorderDelivery {
  import opened Modular
  import opened Reorder

  /** With `e` the next number expected, every held number is in [e, e + N), at its own slot. */
  ghost predicate InWindow(f: Flow, e: nat) {
    InRange(f) && f.max + 1 == |f.p| && Exact(f) && f.exp == e % |f.p| && Window(f.p, e)
  }

  ghost predicate Window(p: Slots, e: nat)
    requires |p| > 0
  {
    forall i :: 0 <= i < |p| && p[i] != null ==> e <= p[i].sn < e + |p| && p[i].sn % |p| == i
  }

  ghost predicate Above(f: Flow, e: nat) {
    forall i :: 0 <= i < |f.p| && f.p[i] != null ==> f.p[i].sn < e
  }

  ghost predicate Holds(f: Flow, sn: nat) {
    exists i :: 0 <= i < |f.p| && f.p[i] != null && f.p[i].sn == sn
  }

  ghost predicate Increasing(up: seq<Packet>) {
    forall i, j :: 0 <= i < j < |up| ==> up[i].sn < up[j].sn
  }

  /** A hint the dongle may send: `e2` is the number it expects next, `pkt.sn` the packet's own. */
  ghost predicate WellFormed(f: Flow, e: nat, h: Hint, pkt: Packet, e2: nat)
  {
    var n, s := f.max + 1, pkt.sn;
    && h.max == f.max && (h.newHole || h.curValid ==> h.cur <= f.max) && h.exp == e2 % n && e <= e2
    && (h.newHole || h.curValid ==> h.cur == s % n && !Holds(f, s))
    && (if h.newHole then
          Above(f, e2) && e2 <= s < e2 + n
        else if h.curValid && s == e then
          e < e2 <= e + n
        else
          && e2 < e + n
          && (h.curValid ==> e < s < e + n && e2 <= s + 1)
          && (!h.curValid ==> e < e2)
          && (h.flushAll && e < e2 ==> Above(f, e2)))
  }

  /** The packets handed up because of their number: a window-move hint's own packet is exempt. */
  function Handed(h: Hint, up: seq<Packet>): seq<Packet> {
    if h.newHole || h.curValid || up == [] then up else up[..|up| - 1]
  }

  /**
    The hint did what a reorder buffer is for: exactly the packets numbered below
    `e2` go up, in order, and the others stay in the new window.
   */
  ghost predicate Delivers(f: Flow, e: nat, h: Hint, pkt: Packet, e2: nat, o: Outcome) {
    && InWindow(o.flow, e2)
    && |o.flow.p| == |f.p|
    && o.freed == []
    && Increasing(Handed(h, o.up))
    && (forall q :: q in Handed(h, o.up) ==> e <= q.sn < e2)
  }

  /** A flow just allocated is a window in which nothing has come yet. */
  lemma EmptyInWindow(max: nat)
    requires max < 256
    ensures InWindow(Empty(max), 0)
  {
    AllNull(seq(max + 1, i => null), max + 1);
  }

  // ---------------------------------------------------------------- index arithmetic

  lemma OffMod(e: nat, s: nat, n: nat)
    requires n > 0 && e <= s < e + n
    ensures Off(s % n, e % n, n) == s - e
  {
    AddMod(e, s - e, n);
  }

  lemma ArcMod(e: nat, e2: nat, n: nat)
    requires n > 0 && e < e2 <= e + n
    ensures ArcLen(e % n, e2 % n, n) == e2 - e
  {
    if e2 < e + n {
      AddMod(e, e2 - e, n);
    } else {
      ModUnique(e + n, e / n + 1, e % n, n);
    }
  }

  lemma SameSlot(e: nat, s: nat, t: nat, n: nat)
    requires n > 0 && e <= s < e + n && e <= t < e + n && s % n == t % n
    ensures s == t
  {
    OffMod(e, s, n);
    OffMod(e, t, n);
  }

  // ---------------------------------------------------------------- flushing

  lemma {:induction false} TakenOrdered(f: Flow, e: nat, k: nat)
    requires InWindow(f, e) && k <= |f.p|
    ensures var up := Taken(f.p, f.exp, k, |f.p|);
      Increasing(up) && forall q :: q in up ==> e <= q.sn < e + k
    decreases k
  {
    if k > 0 {
      TakenOrdered(f, e, k - 1);
      var x := f.p[Pos(f.exp, k - 1, |f.p|)];
      if x != null {
        OffMod(e, x.sn, |f.p|);
      }
    }
  }

  lemma FlushBelow(f: Flow, e: nat, end: nat)
    requires InWindow(f, e) && end <= f.max
    ensures var (g, up) := Flush(f, f.exp, end);
      var m := e + ArcLen(f.exp, end, |f.p|);
      && Increasing(up) && (forall q :: q in up ==> e <= q.sn < m)
      && |g.p| == |f.p|
      && (forall i :: 0 <= i < |f.p| ==>
            g.p[i] == if f.p[i] != null && f.p[i].sn < m then null else f.p[i])
  {
    if f.pend == 0 {
      forall i | 0 <= i < |f.p| ensures f.p[i] == null {
        if f.p[i] != null {
          NoneMeansEmpty(f.p, |f.p|, i, f.p[i]);
        }
      }
    } else {
      TakenOrdered(f, e, ArcLen(f.exp, end, |f.p|));
      ClearedArc(f.p, f.exp, ArcLen(f.exp, end, |f.p|), |f.p|);
      forall i | 0 <= i < |f.p| && f.p[i] != null
        ensures Off(i, f.exp, |f.p|) == f.p[i].sn - e
      {
        OffMod(e, f.p[i].sn, |f.p|);
      }
    }
  }

  /** Flushing up to `e2`, or flushing everything when everything is below `e2`. */
  lemma FlushTo(f: Flow, e: nat, e2: nat, all: bool)
    requires InWindow(f, e) && e < e2 <= e + |f.p|
    requires all ==> Above(f, e2)
    ensures var (g, up) := Flush(f, f.exp, if all then f.exp else e2 % |f.p|);
      && Increasing(up) && (forall q :: q in up ==> e <= q.sn < e2 && Holds(f, q.sn))
      && |g.p| == |f.p| && Window(g.p, e2)
      && (forall i :: 0 <= i < |f.p| ==>
            g.p[i] == if f.p[i] != null && f.p[i].sn < e2 then null else f.p[i])
  {
    ArcMod(e, e2, |f.p|);
    var end := if all then f.exp else e2 % |f.p|;
    FlushBelow(f, e, end);
    var up := Flush(f, f.exp, end).1;
    forall q | q in up ensures Holds(f, q.sn) && (all ==> q.sn < e2) {
      TakenFromSlots(f.p, f.exp, ArcLen(f.exp, end, |f.p|), |f.p|, q);
    }
  }

  lemma {:induction false} TakenFromSlots(s: Slots, start: nat, k: nat, n: nat, q: Packet)
    requires start < n <= |s| && k <= n
    requires q in Taken(s, start, k, n)
    ensures exists i :: 0 <= i < |s| && s[i] == q
    decreases k
  {
    if k > 0 && q in Taken(s, start, k - 1, n) {
      TakenFromSlots(s, start, k - 1, n, q);
    }
  }

  /** The slot of a packet that is in the window and not held is empty. */
  lemma SlotEmpty(f: Flow, e: nat, s: nat)
    requires InWindow(f, e) && e <= s < e + |f.p| && !Holds(f, s)
    ensures f.p[s % |f.p|] == null
  {
    var x := f.p[s % |f.p|];
    if x != null {
      SameSlot(e, s, x.sn, |f.p|);
    }
  }

  // ---------------------------------------------------------------- one hint

  lemma NewHoleDelivers(f: Flow, e: nat, h: Hint, pkt: Packet, e2: nat)
    requires InWindow(f, e) && WellFormed(f, e, h, pkt, e2) && h.newHole
    ensures Delivers(f, e, h, pkt, e2, Step(f, h, pkt))
  {
    HintCounts(f, h, pkt);
    FlushBelow(f, e, f.exp);
    var up := Flush(f, f.exp, f.exp).1;
    forall q | q in up ensures q.sn < e2 {
      TakenFromSlots(f.p, f.exp, ArcLen(f.exp, f.exp, |f.p|), |f.p|, q);
    }
  }

  lemma FillDelivers(f: Flow, e: nat, h: Hint, pkt: Packet, e2: nat)
    requires InWindow(f, e) && WellFormed(f, e, h, pkt, e2) && Fills(f, h)
    requires !CounterWraps(f, h)
    ensures Delivers(f, e, h, pkt, e2, Step(f, h, pkt))
  {
    SlotEmpty(f, e, pkt.sn);
    SameSlot(e, e2, e, |f.p|);
    HintCounts(f, h, pkt);
  }

  lemma PutInWindow(f: Flow, e: nat, h: Hint, pkt: Packet)
    requires InWindow(f, e) && f.pend < 255 && e <= pkt.sn < e + |f.p| && h.cur == pkt.sn % |f.p| && f.p[h.cur] == null
    ensures InWindow(Put(f.(cur := h.cur), h.cur, pkt), e)
  {
    PutTotals(f.(cur := h.cur), h.cur, pkt);
    PutWindow(f.p, e, pkt);
  }

  lemma CompleteDelivers(f: Flow, e: nat, h: Hint, pkt: Packet, e2: nat)
    requires InWindow(f, e) && WellFormed(f, e, h, pkt, e2) && Completes(f, h)
    requires !CounterWraps(f, h)
    ensures Delivers(f, e, h, pkt, e2, Step(f, h, pkt))
  {
    var n := |f.p|;
    SameSlot(e, pkt.sn, e, n);
    SlotEmpty(f, e, pkt.sn);
    PutInWindow(f, e, h, pkt);
    FlushTo(Put(f.(cur := h.cur), h.cur, pkt), e, e2, false);
    HintCounts(f, h, pkt);
  }

  /** Comparing indices tells whether the packet is the last below the new expected number. */
  lemma NextIndex(e: nat, e2: nat, s: nat, n: nat)
    requires n > 0 && e < s < e + n && e < e2 <= s + 1 && e2 < e + n
    ensures e2 % n == (if s % n == n - 1 then 0 else s % n + 1) <==> e2 == s + 1
  {
    OffMod(e, s, n);
    OffMod(e, e2, n);
  }

  lemma BothMoveNumbers(f: Flow, e: nat, h: Hint, pkt: Packet, e2: nat)
    requires InWindow(f, e) && WellFormed(f, e, h, pkt, e2) && BothMove(f, h)
    ensures e < e2 && e < pkt.sn
    ensures FlushesCurrent(f, h) <==> e2 == pkt.sn + 1
  {
    NextIndex(e, e2, pkt.sn, |f.p|);
  }

  lemma IncreasingAppend(up: seq<Packet>, pkt: Packet)
    requires Increasing(up) && forall q :: q in up ==> q.sn < pkt.sn
    ensures Increasing(up + [pkt])
  {
  }

  lemma PutWindow(p: Slots, e: nat, pkt: Packet)
    requires |p| > 0 && Window(p, e) && e <= pkt.sn < e + |p|
    ensures Window(p[pkt.sn % |p| := pkt], e)
  {
  }

  lemma BothMoveFlushes(f: Flow, e: nat, h: Hint, pkt: Packet, e2: nat)
    requires InWindow(f, e) && WellFormed(f, e, h, pkt, e2) && BothMove(f, h)
    requires FlushesCurrent(f, h)
    ensures Delivers(f, e, h, pkt, e2, Step(f, h, pkt))
  {
    BothMoveNumbers(f, e, h, pkt, e2);
    FlushTo(f, e, e2, h.flushAll);
    BothMoveExact(f, e, h, pkt, e2);
    var up := Flush(f, f.exp, EndOf(f, h)).1;
    IncreasingAppend(up, pkt);
  }

  lemma BothMoveStores(f: Flow, e: nat, h: Hint, pkt: Packet, e2: nat)
    requires InWindow(f, e) && WellFormed(f, e, h, pkt, e2) && BothMove(f, h)
    requires !FlushesCurrent(f, h) && !CounterWraps(f, h)
    ensures Delivers(f, e, h, pkt, e2, Step(f, h, pkt))
  {
    BothMoveNumbers(f, e, h, pkt, e2);
    FlushTo(f, e, e2, h.flushAll);
    BothMoveExact(f, e, h, pkt, e2);
    PutWindow(Flush(f, f.exp, EndOf(f, h)).0.p, e2, pkt);
  }

  lemma BothMoveExact(f: Flow, e: nat, h: Hint, pkt: Packet, e2: nat)
    requires InWindow(f, e) && WellFormed(f, e, h, pkt, e2) && BothMove(f, h)
    requires !CounterWraps(f, h)
    ensures Over(f, h) == null
    ensures var g := Step(f, h, pkt).flow; InRange(g) && Exact(g)
  {
    BothMoveNumbers(f, e, h, pkt, e2);
    SlotEmpty(f, e, pkt.sn);
    FlushTo(f, e, e2, h.flushAll);
    MoveCounts(f, h, pkt);
  }

  lemma WindowMoveDelivers(f: Flow, e: nat, h: Hint, pkt: Packet, e2: nat)
    requires InWindow(f, e) && WellFormed(f, e, h, pkt, e2) && !h.newHole && !h.curValid
    ensures Delivers(f, e, h, pkt, e2, Step(f, h, pkt))
  {
    FlushTo(f, e, e2, h.flushAll);
    var o, up := Step(f, h, pkt), Flush(f, f.exp, EndOf(f, h)).1;
    assert o.up == up + [pkt] && (up + [pkt])[..|up|] == up;
    assert InRange(o.flow) && Exact(o.flow) by {
      MoveCounts(f, h, pkt);
    }
  }

  /**
    For a hint the dongle may send, the code does its job exactly when the 8-bit
    counter does not wrap. It can wrap only with 256 slots.
   */
  lemma HintDelivers(f: Flow, e: nat, h: Hint, pkt: Packet, e2: nat)
    requires InWindow(f, e) && WellFormed(f, e, h, pkt, e2)
    ensures Delivers(f, e, h, pkt, e2, Step(f, h, pkt)) <==> !CounterWraps(f, h)
    ensures CounterWraps(f, h) ==> f.max == 255 && f.pend == 255
  {
    if CounterWraps(f, h) {
      WrapBreaks(f, e, h, pkt, e2);
    } else if h.newHole {
      NewHoleDelivers(f, e, h, pkt, e2);
    } else if Fills(f, h) {
      FillDelivers(f, e, h, pkt, e2);
    } else if Completes(f, h) {
      CompleteDelivers(f, e, h, pkt, e2);
    } else if h.curValid {
      if FlushesCurrent(f, h) {
        BothMoveFlushes(f, e, h, pkt, e2);
      } else {
        BothMoveStores(f, e, h, pkt, e2);
      }
    } else {
      WindowMoveDelivers(f, e, h, pkt, e2);
    }
  }

  lemma NothingOver(f: Flow, e: nat, h: Hint, pkt: Packet, e2: nat)
    requires InWindow(f, e) && WellFormed(f, e, h, pkt, e2) && !CounterWraps(f, h)
    ensures Over(f, h) == null
  {
    HintCounts(f, h, pkt);
    if BothMove(f, h) {
      BothMoveExact(f, e, h, pkt, e2);
    }
  }

  /** Nothing is lost: held and incoming packets below `e2` have all gone up, the others are held. */
  lemma HintAccounts(f: Flow, e: nat, h: Hint, pkt: Packet, e2: nat, q: Packet)
    requires InWindow(f, e) && WellFormed(f, e, h, pkt, e2) && !CounterWraps(f, h)
    ensures var o := Step(f, h, pkt);
      Copies(f.p, q) + (if q == pkt then 1 else 0) == Copies(o.flow.p, q) + Copies(o.up, q)
    ensures q.sn < e2 ==> Copies(Step(f, h, pkt).flow.p, q) == 0
  {
    HintDelivers(f, e, h, pkt, e2);
    HintConserves(f, h, pkt, q);
    NothingOver(f, e, h, pkt, e2);
    var o := Step(f, h, pkt);
    assert o.freed == [] && Copies(o.freed, q) == 0;
    if q.sn < e2 && Copies(o.flow.p, q) > 0 {
      var i := Found(o.flow.p, |o.flow.p|, q);
    }
  }

  lemma {:induction false} Found(s: Slots, n: nat, q: Packet) returns (i: nat)
    requires n <= |s| && CopiesIn(s, n, q) > 0
    ensures i < n && s[i] == q
  {
    if s[n - 1] == q {
      i := n - 1;
    } else {
      i := Found(s, n - 1, q);
    }
  }

  /**
    With 255 packets held and one more stored, the counter reads 0: nothing goes up, though the
    packet expected may be there, and no flush, not even that of a deleted flow, finds anything.
   */
  lemma WrapBreaks(f: Flow, e: nat, h: Hint, pkt: Packet, e2: nat)
    requires InWindow(f, e) && WellFormed(f, e, h, pkt, e2) && CounterWraps(f, h)
    ensures !Delivers(f, e, h, pkt, e2, Step(f, h, pkt))
    ensures f.max == 255 && f.pend == 255
    ensures Step(f, h, pkt).up == [] && Step(f, h, pkt).flow.p == f.p[h.cur := pkt]
    ensures Completes(f, h) ==> Holds(Step(f, h, pkt).flow, e) && e < e2
    ensures forall start, end :: start < 256 && end < 256 ==> Flush(Step(f, h, pkt).flow, start, end) == (Step(f, h, pkt).flow, [])
    ensures forall q :: Drained(Step(f, h, pkt).flow, q) == [q]
  {
    WrapNeedsFull(f, e, h, pkt, e2);
    var g := Step(f, h, pkt).flow;
    assert g.p == f.p[h.cur := pkt] && g.pend == 0;
    NoneMeansEmpty(g.p, |g.p|, h.cur, pkt);
    if Completes(f, h) {
      SameSlot(e, pkt.sn, e, 256);
      assert g.p[h.cur].sn == e;
    }
  }

  lemma WrapNeedsFull(f: Flow, e: nat, h: Hint, pkt: Packet, e2: nat)
    requires InWindow(f, e) && WellFormed(f, e, h, pkt, e2) && CounterWraps(f, h)
    ensures f.max == 255 && f.pend == 255 && (Fills(f, h) || Completes(f, h))
  {
    assert e <= pkt.sn < e + |f.p| && (BothMove(f, h) ==> e < e2) by {
      if BothMove(f, h) {
        BothMoveNumbers(f, e, h, pkt, e2);
      }
    }
    SlotEmpty(f, e, pkt.sn);
    NullCounts(f.p, |f.p|, h.cur);
    if BothMove(f, h) {
      FlushTo(f, e, e2, h.flushAll);
      var g := Flush(f, f.exp, EndOf(f, h)).0;
      FlushTotals(f, f.exp, EndOf(f, h));
      assert g.p[f.exp] == null by {
        if f.p[f.exp] != null {
          SameSlot(e, e, f.p[f.exp].sn, |f.p|);
        }
      }
      NullCounts2(g.p, |g.p|, f.exp, h.cur);
    }
  }

  lemma {:induction false} NullCounts(s: Slots, n: nat, i: nat)
    requires i < n <= |s| && s[i] == null
    ensures CopiesIn(s, n, null) >= 1
  {
    if i < n - 1 {
      NullCounts(s, n - 1, i);
    }
  }

  lemma {:induction false} NullCounts2(s: Slots, n: nat, i: nat, j: nat)
    requires i < n <= |s| && j < n && i != j && s[i] == null && s[j] == null
    ensures CopiesIn(s, n, null) >= 2
  {
    if i == n - 1 {
      NullCounts(s, n - 1, j);
    } else if j == n - 1 {
      NullCounts(s, n - 1, i);
    } else {
      NullCounts2(s, n - 1, i, j);
    }
  }

  // ---------------------------------------------------------------- whole runs

  /** One hint of a run: its packet and the number expected after it. */
  datatype Event = Event(h: Hint, pkt: Packet, e2: nat)

  ghost predicate GoodRun(f: Flow, e: nat, run: seq<Event>)
    requires InRange(f)
    decreases |run|
  {
    run == [] ||
    var v := run[0];
    && WellFormed(f, e, v.h, v.pkt, v.e2)
    && !CounterWraps(f, v.h)
    && var g := Step(f, v.h, v.pkt).flow;
       InRange(g) && GoodRun(g, v.e2, run[1..])
  }

  /** Everything handed up over a run, in order. */
  ghost function Delivered(f: Flow, e: nat, run: seq<Event>): seq<Packet>
    requires InRange(f) && GoodRun(f, e, run)
    decreases |run|
  {
    if run == [] then [] else
    var v := run[0];
    var o := Step(f, v.h, v.pkt);
    Handed(v.h, o.up) + Delivered(o.flow, v.e2, run[1..])
  }

  ghost function After(f: Flow, e: nat, run: seq<Event>): (Flow, nat)
    requires InRange(f) && GoodRun(f, e, run)
    decreases |run|
  {
    if run == [] then (f, e) else
    After(Step(f, run[0].h, run[0].pkt).flow, run[0].e2, run[1..])
  }

  /** Over any run the numbers handed up strictly increase, and what is held stays in the window. */
  lemma {:induction false} RunInOrder(f: Flow, e: nat, run: seq<Event>)
    requires InWindow(f, e) && GoodRun(f, e, run)
    ensures Increasing(Delivered(f, e, run))
    ensures var (g, e') := After(f, e, run);
      InWindow(g, e') && e <= e' && forall q :: q in Delivered(f, e, run) ==> e <= q.sn < e'
    decreases |run|
  {
    if run != [] {
      var v := run[0];
      HintDelivers(f, e, v.h, v.pkt, v.e2);
      RunInOrder(Step(f, v.h, v.pkt).flow, v.e2, run[1..]);
    }
  }

  /** Everything handed up over a run, the packets of window moves included. */
  ghost function Up(f: Flow, e: nat, run: seq<Event>): seq<Packet>
    requires InRange(f) && GoodRun(f, e, run)
    decreases |run|
  {
    if run == [] then [] else
    var o := Step(f, run[0].h, run[0].pkt);
    o.up + Up(o.flow, run[0].e2, run[1..])
  }

  ghost function Submitted(run: seq<Event>): seq<Packet> {
    seq(|run|, i requires 0 <= i < |run| => run[i].pkt)
  }

  /** Over any run each packet held at first or submitted has gone up or is held, as often as it came; none below the number expected last is held. */
  lemma {:induction false} RunAccounts(f: Flow, e: nat, run: seq<Event>, q: Packet)
    requires InWindow(f, e) && GoodRun(f, e, run)
    ensures var (g, e') := After(f, e, run);
      && Copies(f.p, q) + Copies(Submitted(run), q) == Copies(Up(f, e, run), q) + Copies(g.p, q)
      && (q.sn < e' ==> Copies(g.p, q) == 0)
    decreases |run|
  {
    if run == [] {
      if Copies(f.p, q) > 0 {
        var i := Found(f.p, |f.p|, q);
      }
    } else {
      var v := run[0];
      var o := Step(f, v.h, v.pkt);
      HintDelivers(f, e, v.h, v.pkt, v.e2);
      HintAccounts(f, e, v.h, v.pkt, v.e2, q);
      RunAccounts(o.flow, v.e2, run[1..], q);
      CopiesConcat(o.up, Up(o.flow, v.e2, run[1..]), q);
      assert Submitted(run) == [v.pkt] + Submitted(run[1..]);
      CopiesConcat([v.pkt], Submitted(run[1..]), q);
      CopiesOne(v.pkt, q);
    }
  }

  // ---------------------------------------------------------------- the counter does wrap

  /** A flow of 256 slots that waits for packet 0 and holds the packets 1 to k. */
  function Waiting(pkts: seq<Packet>, k: nat): Flow
    requires |pkts| == 256 && k < 256
  {
    Flow(seq(256, i requires 0 <= i < 256 => if 0 < i <= k then pkts[i] else null), k, 0, 255, k)
  }

  /** The hints that bring packets k + 1 to 255, one after another. */
  ghost function Coming(pkts: seq<Packet>, k: nat): seq<Event>
    requires |pkts| == 256 && k < 256
    decreases 255 - k
  {
    if k == 255 then [] else
    [Event(Hint(false, true, false, k + 1, 0, 255), pkts[k + 1], 0)] + Coming(pkts, k + 1)
  }

  lemma FillsNext(pkts: seq<Packet>, k: nat)
    requires |pkts| == 256 && (forall i :: 0 <= i < 256 ==> pkts[i].sn == i) && k < 255
    requires InWindow(Waiting(pkts, k), 0)
    ensures var f, h := Waiting(pkts, k), Hint(false, true, false, k + 1, 0, 255);
      && WellFormed(f, 0, h, pkts[k + 1], 0) && !CounterWraps(f, h)
      && Step(f, h, pkts[k + 1]).flow == Waiting(pkts, k + 1) && InWindow(Waiting(pkts, k + 1), 0)
  {
    var f, h := Waiting(pkts, k), Hint(false, true, false, k + 1, 0, 255);
    assert !Holds(f, k + 1);
    assert Step(f, h, pkts[k + 1]).flow.p == Waiting(pkts, k + 1).p;
    FillDelivers(f, 0, h, pkts[k + 1], 0);
  }

  lemma {:induction false} FillsUp(pkts: seq<Packet>, k: nat)
    requires |pkts| == 256 && (forall i :: 0 <= i < 256 ==> pkts[i].sn == i) && k < 256
    requires InWindow(Waiting(pkts, k), 0)
    ensures GoodRun(Waiting(pkts, k), 0, Coming(pkts, k))
    ensures After(Waiting(pkts, k), 0, Coming(pkts, k)) == (Waiting(pkts, 255), 0)
    ensures InWindow(Waiting(pkts, 255), 0)
    decreases 255 - k
  {
    if k < 255 {
      FillsNext(pkts, k);
      assert Coming(pkts, k)[1..] == Coming(pkts, k + 1);
      FillsUp(pkts, k + 1);
    }
  }

  /** From a new flow, hints the dongle may send lead to the state in which the next one wraps the counter. */
  lemma WrapReached(pkts: seq<Packet>)
    requires |pkts| == 256 && forall i :: 0 <= i < 256 ==> pkts[i].sn == i
    ensures var f := Empty(255);
      GoodRun(f, 0, Coming(pkts, 0)) && After(f, 0, Coming(pkts, 0)) == (Waiting(pkts, 255), 0)
    ensures var f, h := Waiting(pkts, 255), Hint(false, true, false, 0, 0, 255);
      InWindow(f, 0) && WellFormed(f, 0, h, pkts[0], 256) && CounterWraps(f, h)
      && Step(f, h, pkts[0]).up == [] && Step(f, h, pkts[0]).flow.p == pkts
  {
    var f := Empty(255);
    assert f.p == Waiting(pkts, 0).p;
    EmptyInWindow(255);
    FillsUp(pkts, 0);
    var g, h := Waiting(pkts, 255), Hint(false, true, false, 0, 0, 255);
    assert !Holds(g, 0);
    WrapBreaks(g, 0, h, pkts[0], 256);
    assert g.p[0 := pkts[0]] == pkts;
  }

  /** A new hole after that loses the packet of its slot. */
  lemma WrapLoses(pkts: seq<Packet>, pkt: Packet, hole: Hint)
    requires |pkts| == 256 && (forall i :: 0 <= i < 256 ==> pkts[i].sn == i)
    requires hole.newHole && hole.cur <= hole.max < 256 && hole.exp <= hole.max
    ensures var g := Step(Waiting(pkts, 255), Hint(false, true, false, 0, 0, 255), pkts[0]).flow;
      && InRange(g) && Fits(g, hole) && Over(g, hole) == pkts[hole.cur]
      && Step(g, hole, pkt).up == [] && Step(g, hole, pkt).freed == []
  {
    WrapReached(pkts);
  }

  /** Deleting a flow hands up everything held, in order, and the packet at hand last. */
  lemma DrainsInOrder(f: Flow, e: nat, pkt: Packet)
    requires InWindow(f, e)
    ensures var up := Drained(f, pkt);
      && up != [] && up[|up| - 1] == pkt && Increasing(up[..|up| - 1])
      && (forall i :: 0 <= i < |f.p| && f.p[i] != null ==> f.p[i] in up)
  {
    FlushBelow(f, e, f.exp);
    FlushTakes(f, f.exp, f.exp);
    var up := Flush(f, f.exp, f.exp).1;
    assert (up + [pkt])[..|up|] == up;
  }
}
