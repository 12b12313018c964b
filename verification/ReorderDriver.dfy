/** The reorder buffer as the driver keeps it: a slot array and packets linked in place (dhd_cdc.c, dhd.h). */
module ReorderDriver {
  import opened Reorder

  /** `up` is the chain that starts at `head` and is linked through `next`. */
  ghost predicate Linked(head: Packet?, up: seq<Packet>)
    reads up
  {
    && head == (if up == [] then null else up[0])
    && forall i {:trigger up[i].next} :: 0 <= i < |up| ==>
         up[i].next == if i + 1 < |up| then up[i + 1] else null
  }

  /** The packets in the slots are distinct and not linked to anything. */
  ghost predicate Loose(s: Slots)
    reads set q | q in s && q != null
  {
    && (forall i :: 0 <= i < |s| && s[i] != null ==> s[i].next == null)
    && (forall i, j :: 0 <= i < j < |s| && s[i] != null ==> s[i] != s[j])
  }

  function Last(up: seq<Packet>): Packet? {
    if up == [] then null else up[|up| - 1]
  }

  /** The chain holds distinct packets, none of them in the slots. */
  ghost predicate Apart(up: seq<Packet>, s: Slots) {
    && (forall q :: q in up ==> q !in s)
    && (forall i, j :: 0 <= i < j < |up| ==> up[i] != up[j])
  }

  /** The flush loop after `k` turns from `start` round a circle of `n`, over slots that held `s`. */
  datatype Tour = Tour(s: Slots, start: nat, k: nat, n: nat, rest: Slots, up: seq<Packet>) {
    /** What the slots still hold, and the chain taken from them. */
    ghost predicate Ok() {
      && start < n <= |s| && k <= n
      && rest == Cleared(s, start, k, n) && up == Taken(s, start, k, n)
    }

    function Next(at: nat): Tour
      requires at < |rest|
    {
      this.(k := k + 1, rest := rest[at := null], up := Behind(up, rest[at]))
    }
  }

  lemma NextOk(t: Tour, at: nat)
    requires t.Ok() && t.k < t.n && at == Pos(t.start, t.k, t.n)
    ensures t.Next(at).Ok() == true
  {
    ClearedArc(t.s, t.start, t.k, t.n);
  }

  lemma FlushIs(f: Flow, start: nat, end: nat, t: Tour)
    requires InRange(f) && start <= f.max && end <= f.max && f.pend != 0
    requires t.Ok() && t.s == f.p && t.start == start && t.n == f.max + 1 && t.k == ArcLen(start, end, t.n)
    ensures Flush(f, start, end) == (f.(p := t.rest, pend := (f.pend + 256 * |t.up| - |t.up|) % 256), t.up)
  {
  }

  ghost predicate Among(s: Slots, own: set<Packet>) {
    forall q :: q in s && q != null ==> q in own
  }

  /** The chain holds only packets that were in the slots. */
  lemma ChainHeld(t: Tour, own: set<Packet>)
    requires t.Ok() && Among(t.s, own)
    ensures Last(t.up) != null ==> Last(t.up) in own
  {
    TakenHeld(t.s, t.start, t.k, t.n);
  }

  lemma {:induction false} TakenHeld(s: Slots, start: nat, k: nat, n: nat)
    requires start < n <= |s| && k <= n
    ensures forall q :: q in Taken(s, start, k, n) ==> q in s
    decreases k
  {
    if k > 0 {
      TakenHeld(s, start, k - 1, n);
    }
  }

  /** No packet comes from anywhere else. */
  lemma TourHeld(t: Tour)
    requires t.Ok()
    ensures forall q: Packet :: q in t.rest || q in t.up ==> q in t.s
  {
    TakenHeld(t.s, t.start, t.k, t.n);
    ClearedArc(t.s, t.start, t.k, t.n);
    forall q: Packet | q in t.rest ensures q in t.s {
      var i :| 0 <= i < |t.rest| && t.rest[i] == q;
      assert t.s[i] == q;
    }
  }

  class ReorderInfo {
    const p: array<Packet?>
    var curIdx: nat
    var expIdx: nat
    var maxIdx: nat
    var pendPkts: nat

    ghost function Abs(): Flow
      reads this, p
    {
      Flow(p[..], curIdx, expIdx, maxIdx, pendPkts)
    }

    ghost function Held(): set<Packet>
      reads p
    {
      set q: Packet | q in p[..]
    }

    ghost predicate Valid()
      reads this, p, Held()
    {
      InRange(Abs()) && Loose(p[..])
    }

    /** A freshly allocated, zeroed flow. */
    constructor (max: nat)
      requires max < 256
      ensures Valid() && fresh(p)
      ensures Abs() == Empty(max)
    {
      p := new Packet?[max + 1](i => null);
      curIdx, expIdx, maxIdx, pendPkts := 0, 0, max, 0;
    }

    /** In the flush loop: what the slots hold, and the chain taken from them so far. */
    ghost predicate Flushing(rest: Slots, up: seq<Packet>, pkt: Packet?, cnt: nat, plast: Packet?)
      reads p, (set q: Packet | q in rest), up
    {
      && p[..] == rest && Loose(rest)
      && Linked(pkt, up) && cnt == |up| && plast == Last(up) && Apart(up, rest)
    }

    /** Unless the slot is empty, link its packet behind the chain. */
    method TakeSlot(at: nat, pkt: Packet?, cnt: nat, plast: Packet?,
                    ghost rest: Slots, ghost up: seq<Packet>, ghost own: set<Packet>)
      returns (pkt': Packet?, cnt': nat, plast': Packet?)
      requires at < p.Length && Flushing(rest, up, pkt, cnt, plast) && (plast != null ==> plast in own)
      modifies p, own
      ensures Flushing(rest[at := null], Behind(up, rest[at]), pkt', cnt', plast')
    {
      pkt', cnt', plast' := pkt, cnt, plast;
      assert plast != null ==> plast in up;
      assert forall i :: 0 <= i < p.Length ==> p[i] in rest;
      var q := p[at];
      p[at] := null;
      if q != null {
        if plast == null {
          pkt' := q;
        } else {
          plast.next := q;
        }
        plast' := q;
        cnt' := cnt + 1;
      }
    }

    /** One turn of the do-while of `dhd_get_hostreorder_pkts`. */
    method Turn(at: nat, pkt: Packet?, cnt: nat, plast: Packet?, ghost t: Tour, ghost own: set<Packet>)
      returns (at': nat, pkt': Packet?, cnt': nat, plast': Packet?)
      requires t.Ok() && t.n == maxIdx + 1 && t.k < t.n && at == Pos(t.start, t.k, t.n) && |t.s| == p.Length
      requires Flushing(t.rest, t.up, pkt, cnt, plast) && Among(t.s, own)
      modifies p, own
      ensures at' == if at + 1 > maxIdx then 0 else at + 1
      ensures t.Next(at).Ok() && Flushing(t.Next(at).rest, t.Next(at).up, pkt', cnt', plast')
    {
      ChainHeld(t, own);
      NextOk(t, at);
      pkt', cnt', plast' := TakeSlot(at, pkt, cnt, plast, t.rest, t.up, own);
      at' := at + 1;
      if at' > maxIdx {
        at' := 0;
      }
    }

    /** The do-while of `dhd_get_hostreorder_pkts`. */
    method TakeSlots(start: nat, end: nat, ghost own: set<Packet>)
      returns (pkt: Packet?, cnt: nat, plast: Packet?, ghost t: Tour)
      requires maxIdx < p.Length && start <= maxIdx && end <= maxIdx && Loose(p[..]) && Among(p[..], own)
      modifies p, own
      ensures t.Ok() && t.s == old(p[..]) && t.start == start && t.n == maxIdx + 1 && t.k == ArcLen(start, end, t.n)
      ensures Flushing(t.rest, t.up, pkt, cnt, plast)
    {
      t := Tour(p[..], start, 0, maxIdx + 1, p[..], []);
      ghost var arc := ArcLen(start, end, t.n);
      var at, again := start, true;
      pkt, cnt, plast := null, 0, null;
      while again
        invariant t.Ok() && t.s == old(p[..]) && t.start == start && t.n == maxIdx + 1
        invariant t.k <= arc && at == Pos(start, t.k, t.n) && (again <==> t.k < arc)
        invariant Flushing(t.rest, t.up, pkt, cnt, plast)
        decreases arc - t.k
      {
        PosNext(start, end, t.k, t.n);
        ghost var next := t.Next(at);
        at, pkt, cnt, plast := Turn(at, pkt, cnt, plast, t, own);
        t, again := next, at != end;
      }
    }

    /** `dhd_get_hostreorder_pkts`: empty the slots from `start` round to `end` into one chain. */
    method GetHostReorderPkts(start: nat, end: nat) returns (pkt: Packet?, cnt: nat, plast: Packet?)
      requires Valid() && start <= maxIdx && end <= maxIdx
      modifies this`pendPkts, p, Held()
      ensures Valid() && Abs() == Flush(old(Abs()), start, end).0
      ensures var up := Flush(old(Abs()), start, end).1;
        && Linked(pkt, up) && cnt == |up| && plast == Last(up)
        && Apart(up, p[..]) && (forall q :: q in up ==> q in old(p[..]))
      ensures forall q: Packet :: q in p[..] ==> q in old(p[..])
    {
      pkt, cnt, plast := null, 0, null;
      if pendPkts != 0 {
        ghost var f, t := Abs(), Tour([], 0, 0, 0, [], []);
        pkt, cnt, plast, t := TakeSlots(start, end, Held());
        TourHeld(t);
        pendPkts := (pendPkts + 256 * cnt - cnt) % 256;
        FlushIs(f, start, end, t);
        assert Abs() == Flush(f, start, end).0;
      }
    }

    /** Store a packet in a slot, which leaves a chain already taken as it is. */
    method Store(i: nat, pkt: Packet, ghost head: Packet?, ghost up: seq<Packet>) returns (freed: Packet?)
      requires Valid() && i <= maxIdx && pkt.next == null && pkt !in p[..] && Linked(head, up)
      modifies p, `pendPkts
      ensures Valid() && Abs() == Put(old(Abs()), i, pkt) && freed == old(p[i]) && Linked(head, up)
    {
      assert forall j :: 0 <= j < p.Length ==> p[j] in p[..];
      freed := p[i];
      p[i] := pkt;
      pendPkts := (pendPkts + 1) % 256;
    }

    /** Link a packet behind a chain of packets that are no longer held. */
    method LinkLast(pkt: Packet?, plast: Packet?, q: Packet, ghost up: seq<Packet>) returns (pkt': Packet)
      requires Valid() && Linked(pkt, up) && plast == Last(up) && Apart(up, p[..])
      requires q.next == null && q !in up && q !in p[..]
      modifies up
      ensures Valid() && Linked(pkt', up + [q])
      ensures Abs() == old(Abs())
    {
      assert plast != null ==> plast in up;
      assert forall j :: 0 <= j < p.Length ==> p[j] in p[..];
      if plast != null {
        plast.next := q;
        pkt' := pkt;
      } else {
        pkt' := q;
      }
    }

    /** NEW_HOLE: everything pending goes up and a new window starts. */
    method NewHole(h: Hint, pkt: Packet) returns (chain: Packet?, cnt: nat)
      requires Valid() && h.newHole && Fits(Abs(), h)
      requires pkt.next == null && pkt !in p[..]
      modifies this, p, Held()
      ensures var o := Step(old(Abs()), h, pkt);
        Valid() && Abs() == o.flow && Linked(chain, o.up) && cnt == |o.up|
    {
      chain, cnt := null, 0;
      ghost var up := Flush(Abs(), expIdx, expIdx).1;
      if pendPkts != 0 {
        var plast;
        chain, cnt, plast := GetHostReorderPkts(expIdx, expIdx);
        pendPkts := 0;
      }
      curIdx, expIdx, maxIdx := h.cur, h.exp, h.max;
      var overwritten := Store(curIdx, pkt, chain, up);
    }

    /** CURIDX_VALID while the window stays: the packet goes to its slot. */
    method Fill(h: Hint, pkt: Packet) returns (freed: Packet?)
      requires Valid() && Fits(Abs(), h) && Fills(Abs(), h)
      requires pkt.next == null && pkt !in p[..]
      modifies p, `curIdx, `pendPkts
      ensures var o := Step(old(Abs()), h, pkt);
        Valid() && Abs() == o.flow && o.up == [] && Content(freed) == o.freed
    {
      freed := Store(h.cur, pkt, null, []);
      curIdx := h.cur;
    }

    /** CURIDX_VALID with the packet expected: it and those behind it go up. */
    method Complete(h: Hint, pkt: Packet) returns (chain: Packet?, cnt: nat, freed: Packet?)
      requires Valid() && Fits(Abs(), h) && Completes(Abs(), h)
      requires pkt.next == null && pkt !in p[..]
      modifies this, p, Held(), pkt
      ensures var o := Step(old(Abs()), h, pkt);
        && Valid() && Abs() == o.flow && Linked(chain, o.up) && cnt == |o.up|
        && Content(freed) == o.freed
    {
      ghost var f := Abs();
      ghost var g := Put(f.(cur := h.cur, exp := h.exp), h.cur, pkt);
      assert Step(f, h, pkt) == Outcome(Flush(g, h.cur, h.exp).0, Flush(g, h.cur, h.exp).1, Content(f.p[h.cur]));
      freed := Store(h.cur, pkt, null, []);
      curIdx, expIdx := h.cur, h.exp;
      assert Abs() == g;
      var plast;
      chain, cnt, plast := GetHostReorderPkts(h.cur, h.exp);
    }

    /** After the flush of a window move: hand up or store the packet at hand, then take the new indices. */
    method Settle(h: Hint, pkt: Packet, chain: Packet?, cnt: nat, plast: Packet?, ghost up: seq<Packet>)
      returns (chain': Packet?, cnt': nat)
      requires Valid() && h.exp <= maxIdx && (h.curValid ==> h.cur <= maxIdx)
      requires Linked(chain, up) && plast == Last(up) && cnt == |up| && Apart(up, p[..])
      requires pkt.next == null && pkt !in p[..] && pkt !in up
      modifies this, p, up
      ensures Valid()
      ensures var g := old(Abs()).(cur := if h.curValid then h.cur else old(curIdx), exp := h.exp);
        if !h.curValid || FlushesCurrent(g, h) then
          Abs() == g && Linked(chain', up + [pkt]) && cnt' == |up| + 1
        else
          Abs() == Put(g, h.cur, pkt) && Linked(chain', up) && cnt' == |up|
    {
      chain', cnt' := chain, cnt;
      if !h.curValid || h.exp == (if h.cur == maxIdx then 0 else h.cur + 1) {
        chain' := LinkLast(chain, plast, pkt, up);
        cnt' := cnt + 1;
      } else {
        var overwritten := Store(h.cur, pkt, chain, up);
      }
      expIdx := h.exp;
      if h.curValid {
        curIdx := h.cur;
      }
    }

    /** The window moves, with or without a packet of its own. */
    method MoveWindow(h: Hint, pkt: Packet) returns (chain: Packet?, cnt: nat)
      requires Valid() && Fits(Abs(), h)
      requires !h.newHole && !Fills(Abs(), h) && !Completes(Abs(), h)
      requires pkt.next == null && pkt !in p[..]
      modifies this, p, Held(), pkt
      ensures var o := Step(old(Abs()), h, pkt);
        Valid() && Abs() == o.flow && Linked(chain, o.up) && cnt == |o.up|
    {
      var end := if h.flushAll then expIdx else h.exp;
      ghost var up := Flush(Abs(), expIdx, end).1;
      var plast;
      chain, cnt, plast := GetHostReorderPkts(expIdx, end);
      chain, cnt := Settle(h, pkt, chain, cnt, plast, up);
    }

    /** `dhd_process_pkt_reorder_info` once the flow exists. */
    method Process(h: Hint, pkt: Packet) returns (chain: Packet?, cnt: nat, freed: Packet?)
      requires Valid() && Fits(Abs(), h)
      requires pkt.next == null && pkt !in p[..]
      modifies this, p, Held(), pkt
      ensures var o := Step(old(Abs()), h, pkt);
        && Valid() && Abs() == o.flow && Linked(chain, o.up) && cnt == |o.up|
        && Content(freed) == o.freed
    {
      freed := null;
      if h.newHole {
        chain, cnt := NewHole(h, pkt);
      } else if h.curValid && h.exp == expIdx && h.cur != expIdx {
        freed := Fill(h, pkt);
        chain, cnt := null, 0;
      } else if h.curValid && h.cur == expIdx {
        chain, cnt, freed := Complete(h, pkt);
      } else {
        chain, cnt := MoveWindow(h, pkt);
      }
    }

    /** DEL_FLOW: hand up everything, the packet at hand last. */
    method Drain(pkt: Packet) returns (chain: Packet, cnt: nat)
      requires Valid() && pkt.next == null && pkt !in p[..]
      modifies this, p, Held()
      ensures Linked(chain, Drained(old(Abs()), pkt)) && cnt == |Drained(old(Abs()), pkt)|
    {
      ghost var up := Flush(Abs(), expIdx, expIdx).1;
      var head, n, plast := GetHostReorderPkts(expIdx, expIdx);
      chain := LinkLast(head, plast, pkt, up);
      cnt := if plast != null then n + 1 else 1;
    }
  }

  const DEL_FLOW: bv8 := 0x01
  const FLUSH_ALL: bv8 := 0x02
  const CURIDX_VALID: bv8 := 0x04
  const NEW_HOLE: bv8 := 0x10

  function Decode(flags: bv8, max: nat, cur: nat, exp: nat): Hint {
    Hint(flags & NEW_HOLE != 0, flags & CURIDX_VALID != 0, flags & FLUSH_ALL != 0, cur, exp, max)
  }

  /** Bits 4, 2 and 1 of the flags are NEW_HOLE, CURIDX_VALID and FLUSH_ALL, bit 0 is DEL_FLOW. */
  lemma FlagBits(flags: bv8, max: nat, cur: nat, exp: nat)
    ensures var h := Decode(flags, max, cur, exp);
      && (h.newHole <==> (flags >> 4) & 1 == 1) && (h.curValid <==> (flags >> 2) & 1 == 1)
      && (h.flushAll <==> (flags >> 1) & 1 == 1) && (flags & DEL_FLOW != 0 <==> flags & 1 == 1)
      && h.cur == cur && h.exp == exp && h.max == max
  {
  }

  /** One entry of the driver's table of flows. */
  class FlowEntry {
    var ptr: ReorderInfo?

    constructor ()
      ensures ptr == null
    {
      ptr := null;
    }

    ghost function Parts(): set<object>
      reads this, ptr, if ptr == null then {} else {ptr.p}
    {
      if ptr == null then {} else {ptr as object, ptr.p as object} + ptr.Held()
    }

    /**
      `dhd_process_pkt_reorder_info`: flags 0xFF are ignored, DEL_FLOW removes the
      flow, any other hint creates it when needed.
     */
    method Process(flags: bv8, max: nat, cur: nat, exp: nat, pkt: Packet)
      returns (chain: Packet?, cnt: nat, freed: Packet?)
      requires max < 256 && pkt.next == null
      requires ptr != null ==> ptr.Valid() && pkt !in ptr.p[..]
      requires flags & DEL_FLOW == 0 ==> Fits(if ptr == null then Empty(max) else ptr.Abs(), Decode(flags, max, cur, exp))
      modifies this, Parts(), pkt
      ensures flags == 0xFF ==> chain == pkt && cnt == 1 && freed == null && ptr == old(ptr)
      ensures flags != 0xFF && flags & DEL_FLOW != 0 ==>
        && ptr == null && freed == null
        && var up := if old(ptr) == null then [pkt] else Drained(old(ptr.Abs()), pkt);
           Linked(chain, up) && cnt == |up|
      ensures flags & DEL_FLOW == 0 ==>
        && ptr != null && ptr.Valid() && (old(ptr) != null ==> ptr == old(ptr))
        && var o := Step(if old(ptr) == null then Empty(max) else old(ptr.Abs()), Decode(flags, max, cur, exp), pkt);
           ptr.Abs() == o.flow && Linked(chain, o.up) && cnt == |o.up| && Content(freed) == o.freed
    {
      freed := null;
      if flags == 0xFF {
        chain, cnt := pkt, 1;
      } else if flags & DEL_FLOW != 0 {
        if ptr == null {
          chain, cnt := pkt, 1;
        } else {
          chain, cnt := ptr.Drain(pkt);
          ptr := null;
        }
      } else {
        if ptr == null {
          ptr := new ReorderInfo(max);
        }
        chain, cnt, freed := ptr.Process(Decode(flags, max, cur, exp), pkt);
      }
    }
  }
}
