/**
  Host AMPDU reorder buffer (dhd_cdc.c).

  The dongle numbers the packets of a flow; the host never sees those numbers,
  only indices modulo the number of slots. `Packet.sn` is the number the dongle
  had in mind and exists for the proofs alone.
 */
module Reorder {
  class Packet {
    ghost const sn: nat
    var next: Packet?

    constructor (ghost sn: nat)
      ensures this.sn == sn && next == null
    {
      this.sn := sn;
      next := null;
    }
  }

  /** One reorder hint, already split into its fields. */
  datatype Hint = Hint(newHole: bool, curValid: bool, flushAll: bool, cur: nat, exp: nat, max: nat)

  type Slots = seq<Packet?>

  /** A flow: slot p[i] is null when empty; the slots of the circle are those up to `max`. */
  datatype Flow = Flow(p: Slots, cur: nat, exp: nat, max: nat, pend: nat)

  /** A flow just allocated for `max` + 1 slots. */
  function Empty(max: nat): Flow {
    Flow(seq(max + 1, i => null), 0, 0, max, 0)
  }

  /** What one hint does: the flow afterwards, the chain handed up, the packets freed. */
  datatype Outcome = Outcome(flow: Flow, up: seq<Packet>, freed: seq<Packet>)

  // ---------------------------------------------------------------- the circle

  /** The slot `k` steps after `start`, for k at most once round. */
  function Pos(start: nat, k: nat, n: nat): nat
    requires start < n && k <= n
  {
    if start + k < n then start + k else start + k - n
  }

  /** How many steps lead from `start` to `i`. */
  function Off(i: nat, start: nat, n: nat): nat
    requires start < n && i < n
  {
    if start <= i then i - start else i + n - start
  }

  /** Slots a do-while from `start` to `end` visits: the full circle when they are equal. */
  function ArcLen(start: nat, end: nat, n: nat): nat
    requires start < n && end < n
  {
    if start < end then end - start else end + n - start
  }

  /** Stepping with `start++; if (start > max_idx) start = 0` reaches `end` after the whole arc, not before. */
  lemma PosNext(start: nat, end: nat, k: nat, n: nat)
    requires start < n && end < n && k < ArcLen(start, end, n)
    ensures Pos(start, k + 1, n) == if Pos(start, k, n) + 1 > n - 1 then 0 else Pos(start, k, n) + 1
    ensures Pos(start, k + 1, n) == end <==> k + 1 == ArcLen(start, end, n)
  {
  }

  function Content(x: Packet?): seq<Packet> {
    if x == null then [] else [x]
  }

  /** A chain with the packet of a slot, if there is one, linked behind it. */
  function Behind(up: seq<Packet>, x: Packet?): seq<Packet> {
    if x == null then up else if up == [] then [x] else up + [x]
  }

  /** The packets met on the first `k` slots from `start` round a circle of `n`, in that order. */
  function Taken(s: Slots, start: nat, k: nat, n: nat): seq<Packet>
    requires start < n <= |s| && k <= n
  {
    if k == 0 then [] else Behind(Taken(s, start, k - 1, n), s[Pos(start, k - 1, n)])
  }

  /** The slots after emptying the first `k` from `start`. */
  function Cleared(s: Slots, start: nat, k: nat, n: nat): (r: Slots)
    requires start < n <= |s| && k <= n
    ensures |r| == |s|
  {
    if k == 0 then s else Cleared(s, start, k - 1, n)[Pos(start, k - 1, n) := null]
  }

  /** These are the slots less than `k` steps behind `start`; no other slot changes. */
  lemma {:induction false} ClearedArc(s: Slots, start: nat, k: nat, n: nat)
    requires start < n <= |s| && k <= n
    ensures forall i :: 0 <= i < |s| ==> Cleared(s, start, k, n)[i] == if i < n && Off(i, start, n) < k then null else s[i]
    decreases k
  {
    if k > 0 {
      ClearedArc(s, start, k - 1, n);
    }
  }

  // ---------------------------------------------------------------- one hint

  ghost predicate InRange(f: Flow) {
    && f.max < |f.p| <= 256
    && f.cur <= f.max && f.exp <= f.max && f.pend < 256
  }

  /** `dhd_get_hostreorder_pkts`; pend_pkts is an 8-bit counter. */
  function Flush(f: Flow, start: nat, end: nat): (r: (Flow, seq<Packet>))
    requires start <= f.max && end <= f.max < |f.p|
  {
    if f.pend == 0 then (f, []) else
    var k := ArcLen(start, end, f.max + 1);
    var up := Taken(f.p, start, k, f.max + 1);
    (f.(p := Cleared(f.p, start, k, f.max + 1), pend := (f.pend + 256 * |up| - |up|) % 256), up)
  }

  /** The hint keeps the expected index and brings a packet for a later slot. */
  predicate Fills(f: Flow, h: Hint) {
    !h.newHole && h.curValid && h.exp == f.exp && h.cur != f.exp
  }

  /** The hint brings the packet at the expected index. */
  predicate Completes(f: Flow, h: Hint) {
    !h.newHole && h.curValid && h.cur == f.exp
  }

  predicate BothMove(f: Flow, h: Hint) {
    !h.newHole && h.curValid && h.exp != f.exp && h.cur != f.exp
  }

  /** In the "both moved" branch the packet itself goes up when it ends the window. */
  predicate FlushesCurrent(f: Flow, h: Hint) {
    h.exp == if h.cur == f.max then 0 else h.cur + 1
  }

  function EndOf(f: Flow, h: Hint): nat {
    if h.flushAll then f.exp else h.exp
  }

  /** Store a packet in a slot, bumping the 8-bit counter. */
  function Put(f: Flow, i: nat, pkt: Packet): Flow
    requires i < |f.p|
  {
    f.(p := f.p[i := pkt], pend := (f.pend + 1) % 256)
  }

  /** The indices are in the circle, which a new hole may make smaller, or larger up to the slots there are. */
  predicate Fits(f: Flow, h: Hint) {
    if h.newHole then h.cur <= h.max && h.exp <= h.max < |f.p|
    else h.exp <= f.max && (h.curValid ==> h.cur <= f.max)
  }

  /** `dhd_process_pkt_reorder_info` on an existing flow. */
  function Step(f: Flow, h: Hint, pkt: Packet): Outcome
    requires InRange(f) && Fits(f, h)
  {
    if h.newHole then
      var (g, up) := Flush(f, f.exp, f.exp);
      Outcome(Put(g.(pend := 0, cur := h.cur, exp := h.exp, max := h.max), h.cur, pkt), up, [])
    else if Fills(f, h) then
      Outcome(Put(f.(cur := h.cur), h.cur, pkt), [], Content(f.p[h.cur]))
    else if Completes(f, h) then
      var (g, up) := Flush(Put(f.(cur := h.cur, exp := h.exp), h.cur, pkt), h.cur, h.exp);
      Outcome(g, up, Content(f.p[h.cur]))
    else if h.curValid then
      var (g, up) := Flush(f, f.exp, EndOf(f, h));
      var g' := g.(cur := h.cur, exp := h.exp);
      if FlushesCurrent(f, h) then Outcome(g', up + [pkt], [])
      else Outcome(Put(g', h.cur, pkt), up, [])
    else
      var (g, up) := Flush(f, f.exp, EndOf(f, h));
      Outcome(g.(exp := h.exp), up + [pkt], [])
  }

  /** DEL_FLOW: everything held goes up, the carrying packet last. */
  function Drained(f: Flow, pkt: Packet): seq<Packet>
    requires InRange(f)
  {
    Flush(f, f.exp, f.exp).1 + [pkt]
  }

  // ---------------------------------------------------------------- the slots accessed

  /** The slots that a flush visits. */
  function Visited(pend: nat, start: nat, end: nat, n: nat): set<nat>
    requires start < n && end < n
  {
    if pend == 0 then {} else set k: nat | k < ArcLen(start, end, n) :: Pos(start, k, n)
  }

  /** The indices of a hint are in the circle it is about, whatever the slots there are. */
  predicate Indices(f: Flow, h: Hint) {
    if h.newHole then h.cur <= h.max && h.exp <= h.max
    else h.exp <= f.max && (h.curValid ==> h.cur <= f.max)
  }

  /** The slots that a hint reads or writes. */
  function Touched(f: Flow, h: Hint): set<nat>
    requires f.exp <= f.max && Indices(f, h)
  {
    var n := f.max + 1;
    if h.newHole then Visited(f.pend, f.exp, f.exp, n) + {h.cur}
    else if Fills(f, h) then {h.cur}
    else if Completes(f, h) then Visited((f.pend + 1) % 256, h.cur, h.exp, n) + {h.cur}
    else Visited(f.pend, f.exp, EndOf(f, h), n) + if h.curValid && !FlushesCurrent(f, h) then {h.cur} else {}
  }

  ghost predicate Inside(f: Flow, h: Hint)
    requires f.exp <= f.max && Indices(f, h)
  {
    forall i :: i in Touched(f, h) ==> i < |f.p|
  }

  /** Hints for the circle a flow has stay inside its slots if and only if the circle does. */
  lemma AllInside(f: Flow)
    requires f.exp <= f.max
    ensures (forall h :: Indices(f, h) && !h.newHole ==> Inside(f, h)) <==> f.max < |f.p|
  {
    if f.max >= |f.p| {
      var h := Hint(false, true, false, f.max, f.exp, f.max);
      assert f.max in Touched(f, h) && !Inside(f, h);
    }
  }

  /**
    The driver allocates slots once and takes a new `max` from every new hole. That hole and all
    hints that may follow it stay inside the slots if and only if the new `max` does.
   */
  lemma NewHoleInside(f: Flow, h: Hint)
    requires f.exp <= f.max < |f.p| && Indices(f, h) && h.newHole
    ensures (Inside(f, h) && forall g :: Indices(f.(exp := h.exp, max := h.max), g) && !g.newHole ==> Inside(f.(exp := h.exp, max := h.max), g))
       <==> h.max < |f.p|
  {
    AllInside(f.(exp := h.exp, max := h.max));
  }

  /** `start++; if (start > max_idx) start = 0`, repeated. */
  function Walk(start: nat, k: nat, max: nat): nat {
    if k == 0 then start else if Walk(start, k - 1, max) + 1 > max then 0 else Walk(start, k - 1, max) + 1
  }

  lemma {:induction false} WalkUp(start: nat, k: nat, i: nat, max: nat)
    requires Walk(start, k, max) == 0 && i <= max
    ensures Walk(start, k + i, max) == i
  {
    if i > 0 {
      WalkUp(start, k, i - 1, max);
    }
  }

  lemma {:induction false} WalkOn(start: nat, k: nat, max: nat)
    requires start + k <= max
    ensures Walk(start, k, max) == start + k
  {
    if k > 0 {
      WalkOn(start, k - 1, max);
    }
  }

  /** The flush loop ends, wherever it starts, if and only if the index it is to end at is in the circle. */
  lemma WalkEnds(start: nat, end: nat, max: nat)
    ensures (exists k :: k > 0 && Walk(start, k, max) == end) <==> end <= max
  {
    if end <= max {
      var k := if start > max then 1 else max - start + 1;
      if start <= max {
        WalkOn(start, k - 1, max);
      }
      assert Walk(start, k - 1, max) + 1 > max;
      WalkUp(start, k, end, max);
      assert Walk(start, k + end, max) == end;
    }
  }

  // ---------------------------------------------------------------- conservation

  /** How often `q` occurs among the first `n` places. */
  function CopiesIn(s: seq<Packet?>, n: nat, q: Packet?): nat
    requires n <= |s|
  {
    if n == 0 then 0 else CopiesIn(s, n - 1, q) + if s[n - 1] == q then 1 else 0
  }

  /** How often `q` occurs in a chain or in the slots. */
  function Copies(s: seq<Packet?>, q: Packet?): nat {
    CopiesIn(s, |s|, q)
  }

  /** The number of occupied slots. */
  function Occupied(s: Slots): nat {
    CopiesBound(s, |s|, null);
    |s| - Copies(s, null)
  }

  lemma {:induction false} CopiesBound(s: seq<Packet?>, n: nat, q: Packet?)
    requires n <= |s|
    ensures CopiesIn(s, n, q) <= n
  {
    if n > 0 {
      CopiesBound(s, n - 1, q);
    }
  }

  lemma {:induction false} CopiesSame(s: seq<Packet?>, t: seq<Packet?>, n: nat, q: Packet?)
    requires n <= |s| && n <= |t|
    requires forall j :: 0 <= j < n ==> s[j] == t[j]
    ensures CopiesIn(s, n, q) == CopiesIn(t, n, q)
  {
    if n > 0 {
      CopiesSame(s, t, n - 1, q);
    }
  }

  lemma {:induction false} CopiesPut(s: Slots, n: nat, i: nat, x: Packet?, q: Packet?)
    requires i < n <= |s|
    ensures CopiesIn(s[i := x], n, q) + (if s[i] == q then 1 else 0) == CopiesIn(s, n, q) + (if x == q then 1 else 0)
  {
    if i == n - 1 {
      CopiesSame(s[i := x], s, n - 1, q);
    } else {
      CopiesPut(s, n - 1, i, x, q);
    }
  }

  lemma CopiesAppend(s: seq<Packet>, x: Packet?, q: Packet)
    ensures Copies(s + Content(x), q) == Copies(s, q) + if x == q then 1 else 0
  {
    CopiesSame(s + Content(x), s, |s|, q);
  }

  lemma {:induction false} NoCopies(s: Slots, n: nat, q: Packet)
    requires n <= |s| && forall i :: 0 <= i < n ==> s[i] == null
    ensures CopiesIn(s, n, q) == 0
  {
    if n > 0 {
      NoCopies(s, n - 1, q);
    }
  }

  lemma {:induction false} CopiesConcat(s: seq<Packet>, t: seq<Packet>, q: Packet)
    ensures Copies(s + t, q) == Copies(s, q) + Copies(t, q)
    decreases |t|
  {
    if t == [] {
      assert s + t == s;
    } else {
      var t', x := t[..|t| - 1], t[|t| - 1];
      assert s + t == (s + t') + Content(x) && t == t' + Content(x);
      CopiesConcat(s, t', q);
      CopiesAppend(s + t', x, q);
      CopiesAppend(t', x, q);
    }
  }

  lemma ClearedNextCopies(s: Slots, start: nat, k: nat, n: nat, q: Packet?)
    requires start < n <= |s| && k < n
    ensures Copies(Cleared(s, start, k + 1, n), q) + (if s[Pos(start, k, n)] == q then 1 else 0)
         == Copies(Cleared(s, start, k, n), q) + if q == null then 1 else 0
  {
    ClearedArc(s, start, k, n);
    CopiesPut(Cleared(s, start, k, n), |s|, Pos(start, k, n), null, q);
  }

  /** Flushing moves packets from the slots to the chain and loses none. */
  lemma {:induction false} FlushConserves(s: Slots, start: nat, k: nat, n: nat, q: Packet)
    requires start < n <= |s| && k <= n
    ensures Copies(Cleared(s, start, k, n), q) + Copies(Taken(s, start, k, n), q) == Copies(s, q)
    decreases k
  {
    if k == 0 {
      CopiesSame(Cleared(s, start, 0, n), s, |s|, q);
    } else {
      FlushConserves(s, start, k - 1, n, q);
      ClearedNextCopies(s, start, k - 1, n, q);
      var up, x := Taken(s, start, k - 1, n), s[Pos(start, k - 1, n)];
      CopiesAppend(up, x, q);
      assert Behind(up, x) == up + Content(x);
    }
  }

  lemma {:induction false} FlushCounts(s: Slots, start: nat, k: nat, n: nat)
    requires start < n <= |s| && k <= n
    ensures Occupied(Cleared(s, start, k, n)) + |Taken(s, start, k, n)| == Occupied(s)
    decreases k
  {
    if k == 0 {
      CopiesSame(Cleared(s, start, 0, n), s, |s|, null);
    } else {
      FlushCounts(s, start, k - 1, n);
      ClearedNextCopies(s, start, k - 1, n, null);
    }
  }

  /** The packet still in the slot when a new hole or the "both moved" branch stores its own there, neither of which looks. */
  function Over(f: Flow, h: Hint): Packet?
    requires InRange(f) && Fits(f, h)
  {
    if h.newHole then Flush(f, f.exp, f.exp).0.p[h.cur]
    else if BothMove(f, h) && !FlushesCurrent(f, h) then Flush(f, f.exp, EndOf(f, h)).0.p[h.cur]
    else null
  }

  /** A store would take the 8-bit counter from 255 back to 0. */
  predicate CounterWraps(f: Flow, h: Hint)
    requires InRange(f) && Fits(f, h)
  {
    || (f.pend == 255 && (Fills(f, h) || Completes(f, h)))
    || (BothMove(f, h) && !FlushesCurrent(f, h) && Flush(f, f.exp, EndOf(f, h)).0.pend == 255)
  }

  /** Nothing is held outside the circle. */
  ghost predicate Clean(f: Flow) {
    forall i :: f.max < i < |f.p| ==> f.p[i] == null
  }

  lemma FlushBalances(f: Flow, start: nat, end: nat, q: Packet)
    requires InRange(f) && start <= f.max && end <= f.max
    ensures var (g, up) := Flush(f, start, end); InRange(g) && Copies(g.p, q) + Copies(up, q) == Copies(f.p, q)
  {
    if f.pend != 0 {
      FlushConserves(f.p, start, ArcLen(start, end, f.max + 1), f.max + 1, q);
    }
  }

  lemma FlushTotals(f: Flow, start: nat, end: nat)
    requires InRange(f) && start <= f.max && end <= f.max
    requires Occupied(f.p) <= f.pend
    ensures var (g, up) := Flush(f, start, end);
      && InRange(g) && Occupied(g.p) <= g.pend
      && g.pend + |up| == f.pend && Occupied(g.p) + |up| == Occupied(f.p)
  {
    if f.pend != 0 {
      FlushCounts(f.p, start, ArcLen(start, end, f.max + 1), f.max + 1);
    }
  }

  lemma FlushClean(f: Flow, start: nat, end: nat)
    requires Clean(f) && start <= f.max && end <= f.max < |f.p|
    ensures Clean(Flush(f, start, end).0)
  {
    if f.pend != 0 {
      ClearedArc(f.p, start, ArcLen(start, end, f.max + 1), f.max + 1);
    }
  }

  /** A flush once round leaves nothing, unless the counter is wrong. */
  lemma FlushAll(f: Flow, start: nat)
    requires Counted(f) && start <= f.max
    ensures Occupied(Flush(f, start, start).0.p) == 0
  {
    if f.pend != 0 {
      ClearedArc(f.p, start, f.max + 1, f.max + 1);
      AllNull(Flush(f, start, start).0.p, |f.p|);
    }
  }

  lemma {:induction false} AllNull(s: Slots, n: nat)
    requires n <= |s|
    requires forall i :: 0 <= i < n ==> s[i] == null
    ensures CopiesIn(s, n, null) == n
  {
    if n > 0 {
      AllNull(s, n - 1);
    }
  }

  lemma {:induction false} NoneMeansEmpty(s: Slots, n: nat, i: nat, q: Packet)
    requires i < n <= |s| && s[i] == q
    ensures CopiesIn(s, n, q) >= 1 && CopiesIn(s, n, null) < n
  {
    CopiesBound(s, n - 1, null);
    if i < n - 1 {
      NoneMeansEmpty(s, n - 1, i, q);
    }
  }

  lemma PutTotals(f: Flow, i: nat, pkt: Packet)
    requires InRange(f) && i <= f.max
    ensures var g := Put(f, i, pkt);
      && InRange(g) && (Clean(f) ==> Clean(g)) && g.pend == (if f.pend < 255 then f.pend + 1 else 0) && Occupied(g.p) > 0
      && Occupied(g.p) == Occupied(f.p) + if f.p[i] == null then 1 else 0
  {
    CopiesPut(f.p, |f.p|, i, pkt, null);
    NoneMeansEmpty(Put(f, i, pkt).p, |f.p|, i, pkt);
  }

  lemma CopiesOne(x: Packet?, q: Packet)
    ensures Copies(Content(x), q) == if x == q then 1 else 0
  {
    CopiesAppend([], x, q);
    assert [] + Content(x) == Content(x);
  }

  /** Held and incoming copies of `q` are accounted for: still held, handed up, freed or stored over. */
  predicate Balances(f: Flow, pkt: Packet, o: Outcome, over: Packet?, q: Packet) {
    Copies(f.p, q) + (if q == pkt then 1 else 0)
    == Copies(o.flow.p, q) + Copies(o.up, q) + Copies(o.freed, q) + if over == q then 1 else 0
  }

  lemma StoreConserves(f: Flow, h: Hint, pkt: Packet, q: Packet)
    requires InRange(f) && Fits(f, h) && (Fills(f, h) || Completes(f, h))
    ensures Balances(f, pkt, Step(f, h, pkt), null, q)
  {
    CopiesOne(f.p[h.cur], q);
    CopiesPut(f.p, |f.p|, h.cur, pkt, q);
    if Completes(f, h) {
      FlushBalances(Put(f.(cur := h.cur, exp := h.exp), h.cur, pkt), h.cur, h.exp, q);
    }
  }

  lemma MoveConserves(f: Flow, h: Hint, pkt: Packet, q: Packet)
    requires InRange(f) && Fits(f, h) && !Fills(f, h) && !Completes(f, h)
    ensures Balances(f, pkt, Step(f, h, pkt), Over(f, h), q)
  {
    var end := if h.newHole then f.exp else EndOf(f, h);
    FlushBalances(f, f.exp, end, q);
    var (g, up) := Flush(f, f.exp, end);
    if h.newHole || (h.curValid && !FlushesCurrent(f, h)) {
      CopiesPut(g.p, |g.p|, h.cur, pkt, q);
    } else {
      CopiesAppend(up, pkt, q);
    }
  }

  /**
    For every hint in range on any flow, whatever its counter says: what was held and what came in
    is what is held, went up, was freed, or was stored over without a look.
   */
  lemma HintConserves(f: Flow, h: Hint, pkt: Packet, q: Packet)
    requires InRange(f) && Fits(f, h)
    ensures InRange(Step(f, h, pkt).flow) && Balances(f, pkt, Step(f, h, pkt), Over(f, h), q)
  {
    if Fills(f, h) || Completes(f, h) {
      StoreConserves(f, h, pkt, q);
    } else {
      MoveConserves(f, h, pkt, q);
    }
  }

  /** So nothing is lost if and only if nothing is stored over. */
  lemma LosesIffOver(f: Flow, h: Hint, pkt: Packet)
    requires InRange(f) && Fits(f, h)
    ensures (forall q :: Balances(f, pkt, Step(f, h, pkt), null, q)) <==> Over(f, h) == null
  {
    forall q: Packet ensures Balances(f, pkt, Step(f, h, pkt), Over(f, h), q) {
      HintConserves(f, h, pkt, q);
    }
    if Over(f, h) != null {
      var x: Packet := Over(f, h);
      assert Balances(f, pkt, Step(f, h, pkt), x, x) && !Balances(f, pkt, Step(f, h, pkt), null, x);
    }
  }

  /** A new hole stores over a packet if and only if the counter wrongly says that none is held. */
  lemma NewHoleOver(f: Flow, h: Hint)
    requires InRange(f) && Clean(f) && Fits(f, h) && h.newHole
    ensures Over(f, h) != null <==> f.pend == 0 && f.p[h.cur] != null
  {
    if f.pend != 0 {
      ClearedArc(f.p, f.exp, f.max + 1, f.max + 1);
    }
  }

  /** The "both moved" branch does so on a new flow of four slots, at its second hint. */
  lemma BothMovedOver(a: Packet, b: Packet)
    ensures var f := Empty(3);
      var g := Step(f, Hint(false, true, false, 2, 0, 3), a).flow;
      && InRange(g) && Over(g, Hint(false, true, false, 2, 1, 3)) == a
      && Step(g, Hint(false, true, false, 2, 1, 3), b).up == [] && Step(g, Hint(false, true, false, 2, 1, 3), b).freed == []
  {
    var g := Step(Empty(3), Hint(false, true, false, 2, 0, 3), a).flow;
    assert g.p == [null, null, a, null];
    ClearedArc(g.p, 0, 1, 4);
    assert Taken(g.p, 0, 0, 4) == [] && Pos(0, 0, 4) == 0;
  }

  // ---------------------------------------------------------------- the counter

  ghost predicate Counted(f: Flow) {
    InRange(f) && Clean(f) && Occupied(f.p) <= f.pend
  }

  ghost predicate Exact(f: Flow) {
    Occupied(f.p) == f.pend
  }

  lemma StoreCounts(f: Flow, h: Hint, pkt: Packet)
    requires Counted(f) && Fits(f, h) && (Fills(f, h) || Completes(f, h))
    ensures var o := Step(f, h, pkt);
      && (Counted(o.flow) <==> !CounterWraps(f, h))
      && (!CounterWraps(f, h) && Exact(f) && o.freed == [] ==> Exact(o.flow))
  {
    var g := Put(f.(cur := h.cur, exp := h.exp), h.cur, pkt);
    PutTotals(f.(cur := h.cur, exp := h.exp), h.cur, pkt);
    if Completes(f, h) && f.pend < 255 {
      FlushTotals(g, h.cur, h.exp);
      FlushClean(g, h.cur, h.exp);
    }
  }

  lemma MoveCounts(f: Flow, h: Hint, pkt: Packet)
    requires Counted(f) && Fits(f, h) && !h.newHole && !Fills(f, h) && !Completes(f, h)
    ensures var o := Step(f, h, pkt);
      && (Counted(o.flow) <==> !CounterWraps(f, h))
      && (!CounterWraps(f, h) && Exact(f) && Over(f, h) == null ==> Exact(o.flow))
  {
    FlushTotals(f, f.exp, EndOf(f, h));
    FlushClean(f, f.exp, EndOf(f, h));
    var g := Flush(f, f.exp, EndOf(f, h)).0;
    if h.curValid && !FlushesCurrent(f, h) {
      PutTotals(g.(cur := h.cur, exp := h.exp), h.cur, pkt);
    }
  }

  lemma NewHoleCounts(f: Flow, h: Hint, pkt: Packet)
    requires Counted(f) && Fits(f, h) && h.newHole
    ensures var o := Step(f, h, pkt); Counted(o.flow) && Exact(o.flow) && Over(f, h) == null
  {
    FlushAll(f, f.exp);
    var g := Flush(f, f.exp, f.exp).0;
    forall i | 0 <= i < |g.p| ensures g.p[i] == null {
      if g.p[i] != null {
        NoneMeansEmpty(g.p, |g.p|, i, g.p[i]);
      }
    }
    PutTotals(g.(pend := 0, cur := h.cur, exp := h.exp, max := h.max), h.cur, pkt);
  }

  /**
    The counter stays at or above the number of occupied slots exactly until it wraps, and equals
    it until two packets meet in one slot; while it does, no new hole stores over a packet.
   */
  lemma HintCounts(f: Flow, h: Hint, pkt: Packet)
    requires Counted(f) && Fits(f, h)
    ensures var o := Step(f, h, pkt);
      && (Counted(o.flow) <==> !CounterWraps(f, h))
      && (!CounterWraps(f, h) && Exact(f) && o.freed == [] && Over(f, h) == null ==> Exact(o.flow))
    ensures h.newHole ==> Over(f, h) == null
  {
    if h.newHole {
      NewHoleCounts(f, h, pkt);
    } else if Fills(f, h) || Completes(f, h) {
      StoreCounts(f, h, pkt);
    } else {
      MoveCounts(f, h, pkt);
    }
  }

  // ---------------------------------------------------------------- what a window move takes

  /** A slot on the way from `start` round to `end`; all slots when these are equal. */
  predicate Between(start: nat, end: nat, i: nat) {
    if start < end then start <= i < end else i >= start || i < end
  }

  lemma {:induction false} TakenArc(s: Slots, start: nat, k: nat, n: nat)
    requires start < n <= |s| && k <= n
    ensures forall i :: 0 <= i < n && Off(i, start, n) < k && s[i] != null ==> s[i] in Taken(s, start, k, n)
    decreases k
  {
    if k > 0 {
      TakenArc(s, start, k - 1, n);
      forall i | 0 <= i < n && Off(i, start, n) < k && s[i] != null ensures s[i] in Taken(s, start, k, n) {
        if Off(i, start, n) == k - 1 {
          assert i == Pos(start, k - 1, n);
        }
      }
    }
  }

  /** A flush takes what is between its ends, and nothing else. */
  lemma FlushTakes(f: Flow, start: nat, end: nat)
    requires Counted(f) && start <= f.max && end <= f.max
    ensures var (g, up) := Flush(f, start, end);
      forall i :: 0 <= i < |f.p| && f.p[i] != null ==>
        if Between(start, end, i) then f.p[i] in up && g.p[i] == null else g.p[i] == f.p[i]
  {
    var n := f.max + 1;
    forall i | 0 <= i < |f.p| && f.p[i] != null ensures f.pend != 0 && i < n {
      NoneMeansEmpty(f.p, |f.p|, i, f.p[i]);
    }
    if f.pend != 0 {
      TakenArc(f.p, start, ArcLen(start, end, n), n);
      ClearedArc(f.p, start, ArcLen(start, end, n), n);
    }
  }

  lemma FlushEmpties(f: Flow, start: nat, end: nat)
    requires start <= f.max && end <= f.max < |f.p|
    ensures forall i :: 0 <= i < |f.p| && f.p[i] == null ==> Flush(f, start, end).0.p[i] == null
  {
    if f.pend != 0 {
      ClearedArc(f.p, start, ArcLen(start, end, f.max + 1), f.max + 1);
    }
  }

  /** A hint that moves the window stores its packet in its slot only if it has one, and does not end the window. */
  predicate Stores(f: Flow, h: Hint) {
    BothMove(f, h) && !FlushesCurrent(f, h)
  }

  /** With FLUSH_ALL everything held goes up, wherever it is. */
  lemma FlushAllTakes(f: Flow, h: Hint, pkt: Packet)
    requires Counted(f) && Fits(f, h) && !h.newHole && h.flushAll && !Fills(f, h) && !Completes(f, h)
    ensures var o := Step(f, h, pkt);
      && (forall i :: 0 <= i < |f.p| && f.p[i] != null ==> f.p[i] in o.up)
      && (forall i :: 0 <= i < |f.p| && o.flow.p[i] != null ==> i == h.cur && Stores(f, h) && o.flow.p[i] == pkt)
  {
    FlushTakes(f, f.exp, f.exp);
    FlushEmpties(f, f.exp, f.exp);
  }

  /** Without it, what is held from the old expected index on up to the new one goes up, and the rest stays. */
  lemma MoveTakes(f: Flow, h: Hint, pkt: Packet)
    requires Counted(f) && Fits(f, h) && !h.newHole && !h.flushAll && !Fills(f, h) && !Completes(f, h)
    ensures var o := Step(f, h, pkt);
      forall i :: 0 <= i < |f.p| && f.p[i] != null ==>
        if Between(f.exp, h.exp, i) then f.p[i] in o.up && (o.flow.p[i] == null || (i == h.cur && Stores(f, h)))
        else o.flow.p[i] == f.p[i] || (i == h.cur && Stores(f, h))
  {
    FlushTakes(f, f.exp, h.exp);
  }

  /** A new hole takes everything; the packet that was expected goes up with those behind it. */
  lemma OthersTake(f: Flow, h: Hint, pkt: Packet)
    requires Counted(f) && Fits(f, h) && (h.newHole || (Completes(f, h) && f.pend < 255))
    ensures var o := Step(f, h, pkt);
      if h.newHole then
        && (forall i :: 0 <= i < |f.p| && f.p[i] != null ==> f.p[i] in o.up)
        && (forall i :: 0 <= i < |f.p| ==> o.flow.p[i] == if i == h.cur then pkt else null)
      else
        && pkt in o.up
        && (forall i :: 0 <= i < |f.p| && f.p[i] != null && i != h.cur ==>
              if Between(h.cur, h.exp, i) then f.p[i] in o.up else o.flow.p[i] == f.p[i])
  {
    if h.newHole {
      FlushTakes(f, f.exp, f.exp);
      FlushEmpties(f, f.exp, f.exp);
    } else {
      var g := Put(f.(cur := h.cur, exp := h.exp), h.cur, pkt);
      PutTotals(f.(cur := h.cur, exp := h.exp), h.cur, pkt);
      FlushTakes(g, h.cur, h.exp);
      assert g.p[h.cur] == pkt;
    }
  }

  /** The indices that a hint leaves behind. */
  lemma StepIndices(f: Flow, h: Hint, pkt: Packet)
    requires InRange(f) && Fits(f, h)
    ensures var g := Step(f, h, pkt).flow;
      && g.exp == h.exp
      && g.cur == (if h.newHole || h.curValid then h.cur else f.cur)
      && g.max == (if h.newHole then h.max else f.max) && |g.p| == |f.p|
  {
  }
}
