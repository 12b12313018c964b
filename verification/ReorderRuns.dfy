/**
  Whole runs of what a flow id of the reorder buffer gets (dhd_cdc.c), with no assumption on what
  the dongle means by its hints: where every packet is.
 */
module ReorderRuns {
  import opened Octets
  import opened Reorder

  /** What a flow id gets: hints, its deletion, and flags 0xFF, which are ignored. */
  datatype Event = Hinted(h: Hint, pkt: Packet) | Deleted(pkt: Packet) | Ignored(pkt: Packet)

  /** A flow id: its flow, if there is one, and what became of the packets that are no longer held. */
  datatype World = World(flow: Option<Flow>, up: seq<Packet>, freed: seq<Packet>, over: seq<Packet>, dropped: seq<Packet>)

  /** The packets in the slots. */
  function Packets(s: Slots): seq<Packet> {
    if s == [] then [] else Packets(s[..|s| - 1]) + Content(s[|s| - 1])
  }

  /** The flow that a hint is about: a new one if there is none. */
  function Target(w: World, h: Hint): Flow {
    if w.flow.Some? then w.flow.value else Empty(h.max)
  }

  ghost predicate Possible(w: World, e: Event) {
    && (w.flow.Some? ==> InRange(w.flow.value))
    && (e.Hinted? ==> InRange(Target(w, e.h)) && Fits(Target(w, e.h), e.h))
  }

  /** `dhd_process_pkt_reorder_info`. Deleting a flow frees it with whatever its flush has left. */
  ghost function Next(w: World, e: Event): World
    requires Possible(w, e)
  {
    match e
    case Hinted(h, pkt) =>
      var f := Target(w, h);
      var o := Step(f, h, pkt);
      World(Some(o.flow), w.up + o.up, w.freed + o.freed, w.over + Content(Over(f, h)), w.dropped)
    case Deleted(pkt) =>
      if w.flow.None? then w.(up := w.up + [pkt])
      else
        var f := w.flow.value;
        w.(flow := None, up := w.up + Drained(f, pkt), dropped := w.dropped + Packets(Flush(f, f.exp, f.exp).0.p))
    case Ignored(pkt) => w.(up := w.up + [pkt])
  }

  ghost predicate Runs(w: World, run: seq<Event>)
    decreases |run|
  {
    run == [] || (Possible(w, run[0]) && Runs(Next(w, run[0]), run[1..]))
  }

  ghost function End(w: World, run: seq<Event>): World
    requires Runs(w, run)
    decreases |run|
  {
    if run == [] then w else End(Next(w, run[0]), run[1..])
  }

  ghost function Held(w: World): Slots {
    if w.flow.Some? then w.flow.value.p else []
  }

  /** In how many places a packet is. */
  ghost function Places(w: World, q: Packet): nat {
    Copies(Held(w), q) + Copies(w.up, q) + Copies(w.freed, q) + Copies(w.over, q) + Copies(w.dropped, q)
  }

  ghost function Arrivals(run: seq<Event>, q: Packet): nat {
    if run == [] then 0 else (if run[0].pkt == q then 1 else 0) + Arrivals(run[1..], q)
  }

  lemma {:induction false} PacketsCopies(s: Slots, q: Packet)
    ensures Copies(Packets(s), q) == Copies(s, q)
  {
    if s != [] {
      var t := s[..|s| - 1];
      PacketsCopies(t, q);
      CopiesAppend(Packets(t), s[|s| - 1], q);
      CopiesSame(s, t, |t|, q);
    }
  }

  lemma NextAccounts(w: World, e: Event, q: Packet)
    requires Possible(w, e)
    ensures Places(Next(w, e), q) == Places(w, q) + if e.pkt == q then 1 else 0
  {
    match e
    case Hinted(h, pkt) =>
      var f := Target(w, h);
      var o := Step(f, h, pkt);
      HintConserves(f, h, pkt, q);
      CopiesConcat(w.up, o.up, q);
      CopiesConcat(w.freed, o.freed, q);
      CopiesAppend(w.over, Over(f, h), q);
      if w.flow.None? {
        NoCopies(f.p, |f.p|, q);
      }
    case Deleted(pkt) =>
      if w.flow.Some? {
        var f := w.flow.value;
        var (g, up) := Flush(f, f.exp, f.exp);
        FlushBalances(f, f.exp, f.exp, q);
        PacketsCopies(g.p, q);
        CopiesConcat(w.dropped, Packets(g.p), q);
        CopiesConcat(w.up, up + [pkt], q);
        CopiesAppend(up, pkt, q);
      } else {
        CopiesAppend(w.up, pkt, q);
      }
    case Ignored(pkt) =>
      CopiesAppend(w.up, pkt, q);
  }

  /**
    Over any run of hints in range, deletions and ignored packets, with any flows and counters:
    each packet held at first or submitted has gone up, was freed, stored over, dropped with its
    flow, or is held, as often as it came.
   */
  lemma {:induction false} RunConserves(w: World, run: seq<Event>, q: Packet)
    requires Runs(w, run)
    ensures Places(End(w, run), q) == Places(w, q) + Arrivals(run, q)
    decreases |run|
  {
    if run != [] {
      NextAccounts(w, run[0], q);
      RunConserves(Next(w, run[0]), run[1..], q);
    }
  }

  /** Deleting a flow drops packets with it if and only if its counter wrongly says that none is held. */
  lemma DeletionDrops(f: Flow)
    requires InRange(f) && Clean(f)
    ensures Packets(Flush(f, f.exp, f.exp).0.p) != [] <==> f.pend == 0 && exists i :: 0 <= i < |f.p| && f.p[i] != null
  {
    var g := Flush(f, f.exp, f.exp).0;
    PacketsNone(g.p);
    if f.pend != 0 {
      ClearedArc(f.p, f.exp, f.max + 1, f.max + 1);
    }
  }

  lemma {:induction false} PacketsNone(s: Slots)
    ensures Packets(s) == [] <==> forall i :: 0 <= i < |s| ==> s[i] == null
  {
    if s != [] {
      var t, x := s[..|s| - 1], s[|s| - 1];
      PacketsNone(t);
      assert s == t + [x] && |Packets(s)| == |Packets(t)| + |Content(x)|;
    }
  }

  // ---------------------------------------------------------------- a run that loses a packet

  /** Hints that fill slot 1 of two again and again: from the k-th of 256 packets on. */
  ghost function Refills(pkts: seq<Packet>, k: nat): seq<Event>
    requires |pkts| == 256 && k <= 256
    decreases 256 - k
  {
    if k == 256 then [] else [Hinted(Hint(false, true, false, 1, 0, 1), pkts[k])] + Refills(pkts, k + 1)
  }

  /** After k of them the last packet is held, the others are freed, and the counter has counted all. */
  function Refilled(pkts: seq<Packet>, k: nat): World
    requires |pkts| == 256 && k <= 256
  {
    if k == 0 then World(None, [], [], [], [])
    else World(Some(Flow([null, pkts[k - 1]], 1, 0, 1, k % 256)), [], pkts[..k - 1], [], [])
  }

  lemma RefillNext(pkts: seq<Packet>, k: nat)
    requires |pkts| == 256 && k < 256
    ensures var w, e := Refilled(pkts, k), Hinted(Hint(false, true, false, 1, 0, 1), pkts[k]);
      Possible(w, e) && Next(w, e) == Refilled(pkts, k + 1)
  {
    var w, h := Refilled(pkts, k), Hint(false, true, false, 1, 0, 1);
    var f := Target(w, h);
    assert f.p[1 := pkts[k]] == [null, pkts[k]];
    if k > 0 {
      assert pkts[..k - 1] + [pkts[k - 1]] == pkts[..k];
    }
  }

  lemma {:induction false} RefillsRun(pkts: seq<Packet>, k: nat)
    requires |pkts| == 256 && k <= 256
    ensures Runs(Refilled(pkts, k), Refills(pkts, k)) && End(Refilled(pkts, k), Refills(pkts, k)) == Refilled(pkts, 256)
    decreases 256 - k
  {
    if k < 256 {
      RefillNext(pkts, k);
      RefillsRun(pkts, k + 1);
      assert Refills(pkts, k)[1..] == Refills(pkts, k + 1);
    }
  }

  /**
    256 hints for one of two slots leave a packet held and the counter at 0; a new hole at that
    slot then loses the packet: it is neither handed up nor freed.
   */
  lemma RefillsLose(pkts: seq<Packet>, pkt: Packet)
    requires |pkts| == 256
    ensures var none := World(None, [], [], [], []);
      Runs(none, Refills(pkts, 0)) && End(none, Refills(pkts, 0)).flow == Some(Flow([null, pkts[255]], 1, 0, 1, 0))
    ensures var w, e := Refilled(pkts, 256), Hinted(Hint(true, false, false, 1, 0, 1), pkt);
      && Possible(w, e) && Next(w, e).flow == Some(Flow([null, pkt], 1, 0, 1, 1))
      && Next(w, e).up == [] && Next(w, e).freed == pkts[..255] && Next(w, e).over == [pkts[255]]
  {
    RefillsRun(pkts, 0);
    var f := Flow([null, pkts[255]], 1, 0, 1, 0);
    assert f.p[1 := pkt] == [null, pkt];
  }
}
