/**
  The suppression ratio of HOLD mode (dhd_ip.c), over runs: of each stream every r-th ACK is
  passed on, whatever the other streams do meanwhile.
 */
module AckRatio {
  import opened AckHold
  import opened Modular
  import opened PshPool

  // ---------------------------------------------------------------- the slot of a stream

  /** The slot of a stream, an empty one if it has none. */
  function HeldOf(slots: seq<Slot>, flow: FourTuple): Slot {
    var m := Match(slots, flow);
    if m < |slots| then slots[m] else Empty
  }

  predicate Holds(slot: Slot, flow: FourTuple) {
    slot.Full? && slot.pkt.flow == flow
  }

  lemma HeldAt(slots: seq<Slot>, flow: FourTuple, i: nat)
    requires OnePerFlow(slots) && i < |slots| && Holds(slots[i], flow)
    ensures HeldOf(slots, flow) == slots[i]
  {
  }

  lemma HeldNone(slots: seq<Slot>, flow: FourTuple)
    requires forall i :: 0 <= i < |slots| ==> !Holds(slots[i], flow)
    ensures HeldOf(slots, flow) == Empty
  {
  }

  lemma HeldIs(slots: seq<Slot>, flow: FourTuple)
    requires OnePerFlow(slots)
    ensures (exists i :: 0 <= i < |slots| && Holds(slots[i], flow)) <==> HeldOf(slots, flow).Full?
    ensures forall i :: 0 <= i < |slots| && Holds(slots[i], flow) ==> slots[i] == HeldOf(slots, flow)
  {
    forall i | 0 <= i < |slots| && Holds(slots[i], flow)
      ensures slots[i] == HeldOf(slots, flow)
    {
      HeldAt(slots, flow, i);
    }
    var m := Match(slots, flow);
    assert m < |slots| ==> Holds(slots[m], flow);
  }

  /** A slot that holds the stream neither before nor after leaves its slot alone. */
  lemma HeldElse(slots: seq<Slot>, flow: FourTuple, i: nat, x: Slot)
    requires i < |slots| && !Holds(slots[i], flow) && !Holds(x, flow) && OnePerFlow(slots[i := x])
    ensures HeldOf(slots[i := x], flow) == HeldOf(slots, flow)
  {
    var m := Match(slots, flow);
    if m < |slots| {
      HeldAt(slots[i := x], flow, m);
    } else {
      HeldNone(slots[i := x], flow);
    }
  }

  // ---------------------------------------------------------------- runs

  /** What the events make of a state. */
  function From(s: State, events: seq<Event>): State {
    if events == [] then s else Step(From(s, events[..|events| - 1]), events[|events| - 1])
  }

  /** The ACKs of a stream among some. */
  function OfFlow(acks: seq<Ack>, flow: FourTuple): seq<Ack> {
    if acks == [] then []
    else OfFlow(acks[..|acks| - 1], flow) + if acks[|acks| - 1].flow == flow then [acks[|acks| - 1]] else []
  }

  function Grown(own: seq<Ack>, e: Event, flow: FourTuple): seq<Ack> {
    if e.Hold? && e.pkt.flow == flow then own + [e.pkt] else own
  }

  /** The ACKs of a stream that are submitted. */
  function Own(events: seq<Event>, flow: FourTuple): seq<Ack> {
    if events == [] then [] else Grown(Own(events[..|events| - 1], flow), events[|events| - 1], flow)
  }

  /** Of some ACKs every r-th. */
  function Every(acks: seq<Ack>, r: nat): seq<Ack>
    requires r > 0
  {
    if acks == [] then []
    else Every(acks[..|acks| - 1], r) + if |acks| % r == 0 then [acks[|acks| - 1]] else []
  }

  /**
    An event that lets a stream be, after some ACKs of it: one of its own is submitted with the
    ratio r, is not behind the one before, and finds a slot; no timer of its slot is handled.
   */
  ghost predicate Lets(s: State, own: seq<Ack>, e: Event, flow: FourTuple, r: nat) {
    match e
    case Hold(p, _, ratio) =>
      p.flow == flow ==>
        && ratio == r
        && (own != [] ==> SeqGe(p.num, own[|own| - 1].num))
        && exists i :: 0 <= i < |s.slots| && (s.slots[i].Empty? || Holds(s.slots[i], flow))
    case Timer(i) => i < |s.slots| ==> !Holds(s.slots[i], flow)
  }

  ghost predicate Undisturbed(s: State, events: seq<Event>, flow: FourTuple, r: nat) {
    || events == []
    || var before := events[..|events| - 1];
       Undisturbed(s, before, flow, r) && Lets(From(s, before), Own(before, flow), events[|events| - 1], flow, r)
  }

  // ---------------------------------------------------------------- one step

  lemma OnePassed(acks: seq<Ack>, p: Ack, flow: FourTuple)
    ensures OfFlow(acks + [p], flow) == OfFlow(acks, flow) + if p.flow == flow then [p] else []
  {
    assert (acks + [p])[..|acks|] == acks;
  }

  /** The first ACK of a round is held. */
  lemma RoundBegins(s: State, p: Ack, ifidx: nat, r: nat)
    requires Good(s) && r != 1 && HeldOf(s.slots, p.flow).Empty?
    requires exists i :: 0 <= i < |s.slots| && (s.slots[i].Empty? || Holds(s.slots[i], p.flow))
    ensures var u := Step(s, Hold(p, ifidx, r)); HeldOf(u.slots, p.flow) == Full(p, ifidx, 1) && u.passed == s.passed
  {
    var u, f := Step(s, Hold(p, ifidx, r)), FirstFree(s.slots);
    StepGood(s, Hold(p, ifidx, r));
    HeldAt(u.slots, p.flow, f);
  }

  /** Each further one replaces the one held, and the r-th is passed on. */
  lemma RoundGoesOn(s: State, p: Ack, ifidx: nat, r: nat)
    requires Good(s) && 2 <= r <= 255
    requires var x := HeldOf(s.slots, p.flow); x.Full? && SeqGe(p.num, x.pkt.num) && x.suppCnt < r
    ensures var x, u := HeldOf(s.slots, p.flow), Step(s, Hold(p, ifidx, r));
      if x.suppCnt + 1 == r then HeldOf(u.slots, p.flow) == Empty && u.passed == s.passed + [p]
      else HeldOf(u.slots, p.flow) == Full(p, ifidx, x.suppCnt + 1) && u.passed == s.passed
  {
    var x, u, m := HeldOf(s.slots, p.flow), Step(s, Hold(p, ifidx, r)), Match(s.slots, p.flow);
    StepGood(s, Hold(p, ifidx, r));
    if x.suppCnt + 1 == r {
      HeldNone(u.slots, p.flow);
    } else {
      HeldAt(u.slots, p.flow, m);
    }
  }

  /** An event of another stream leaves this one's slot alone and passes none of its ACKs on. */
  lemma Others(s: State, e: Event, flow: FourTuple)
    requires Good(s)
    requires e.Hold? ==> e.pkt.flow != flow
    requires e.Timer? && e.i < |s.slots| ==> !Holds(s.slots[e.i], flow)
    ensures var u := Step(s, e); HeldOf(u.slots, flow) == HeldOf(s.slots, flow) && OfFlow(u.passed, flow) == OfFlow(s.passed, flow)
  {
    var u := Step(s, e);
    StepGood(s, e);
    if e.Hold? {
      OnePassed(s.passed, e.pkt, flow);
      var m, f := Match(s.slots, e.pkt.flow), FirstFree(s.slots);
      var i := if m < |s.slots| then m else f;
      if u.slots != s.slots {
        HeldElse(s.slots, flow, i, u.slots[i]);
      }
    } else if u.slots != s.slots {
      HeldElse(s.slots, flow, e.i, Empty);
    }
  }

  // ---------------------------------------------------------------- the ratio over runs

  /** The slot of a stream of which k ACKs have come in this round. */
  ghost predicate Counts(slot: Slot, own: seq<Ack>, k: nat) {
    if k == 0 then slot == Empty else own != [] && slot.Full? && slot.pkt == own[|own| - 1] && slot.suppCnt == k
  }

  lemma OneMore(s: State, own: seq<Ack>, e: Event, k: nat, r: nat)
    requires Good(s) && 2 <= r <= 255 && k < r && e.Hold?
    requires Counts(HeldOf(s.slots, e.pkt.flow), own, k) && Lets(s, own, e, e.pkt.flow, r)
    ensures var u, own' := Step(s, e), own + [e.pkt];
      if k + 1 == r then Counts(HeldOf(u.slots, e.pkt.flow), own', 0) && u.passed == s.passed + [e.pkt]
      else Counts(HeldOf(u.slots, e.pkt.flow), own', k + 1) && u.passed == s.passed
  {
    if k == 0 {
      RoundBegins(s, e.pkt, e.ifidx, r);
    } else {
      RoundGoesOn(s, e.pkt, e.ifidx, r);
    }
  }

  lemma EveryNext(own: seq<Ack>, p: Ack, r: nat)
    requires 2 <= r
    ensures (|own| + 1) % r == if |own| % r + 1 == r then 0 else |own| % r + 1
    ensures Every(own + [p], r) == Every(own, r) + if |own| % r + 1 == r then [p] else []
  {
    AddMod(|own|, 1, r);
    assert (own + [p])[..|own|] == own;
  }

  /** What one event adds to the ACKs passed on. */
  lemma Passes(s: State, own: seq<Ack>, e: Event, flow: FourTuple, r: nat) returns (x: seq<Ack>)
    requires Good(s) && 2 <= r <= 255 && Counts(HeldOf(s.slots, flow), own, |own| % r) && Lets(s, own, e, flow, r)
    ensures var u, own' := Step(s, e), Grown(own, e, flow);
      && Counts(HeldOf(u.slots, flow), own', |own'| % r) == true
      && OfFlow(u.passed, flow) == OfFlow(s.passed, flow) + x
      && Every(own', r) == Every(own, r) + x
  {
    if e.Hold? && e.pkt.flow == flow {
      OneMore(s, own, e, |own| % r, r);
      EveryNext(own, e.pkt, r);
      OnePassed(s.passed, e.pkt, flow);
      x := if |own| % r + 1 == r then [e.pkt] else [];
    } else {
      Others(s, e, flow);
      x := [];
    }
  }

  lemma {:induction false} FromGood(s: State, events: seq<Event>)
    requires Good(s)
    ensures Good(From(s, events))
  {
    if events != [] {
      FromGood(s, events[..|events| - 1]);
      StepGood(From(s, events[..|events| - 1]), events[|events| - 1]);
    }
  }

  lemma {:induction false} RunCounts(s: State, events: seq<Event>, flow: FourTuple, r: nat)
    requires Good(s) && HeldOf(s.slots, flow) == Empty && 2 <= r <= 255 && Undisturbed(s, events, flow, r)
    ensures var u, own := From(s, events), Own(events, flow);
      && Counts(HeldOf(u.slots, flow), own, |own| % r) == true
      && OfFlow(u.passed, flow) == OfFlow(s.passed, flow) + Every(own, r)
  {
    if events != [] {
      var before := events[..|events| - 1];
      RunCounts(s, before, flow, r);
      FromGood(s, before);
      var x := Passes(From(s, before), Own(before, flow), events[|events| - 1], flow, r);
      Regroup(OfFlow(s.passed, flow), Every(Own(before, flow), r), x);
    }
  }

  lemma Regroup(a: seq<Ack>, b: seq<Ack>, c: seq<Ack>)
    ensures (a + b) + c == a + (b + c)
  {
  }

  /**
    With a ratio r from 2 to 255, every r-th ACK of a stream is passed on and no other of it; an
    ACK of it is held if and only if their number is no multiple of r, and it is then the last.
   */
  lemma RatioPasses(s: State, events: seq<Event>, flow: FourTuple, r: nat)
    requires Good(s) && 2 <= r <= 255 && Undisturbed(s, events, flow, r)
    requires forall i :: 0 <= i < |s.slots| ==> !Holds(s.slots[i], flow)
    ensures var u, own := From(s, events), Own(events, flow);
      && OfFlow(u.passed, flow) == OfFlow(s.passed, flow) + Every(own, r)
      && ((exists i :: 0 <= i < |u.slots| && Holds(u.slots[i], flow)) <==> |own| % r != 0)
      && (forall i :: 0 <= i < |u.slots| && Holds(u.slots[i], flow) ==> own != [] && u.slots[i].pkt == own[|own| - 1])
  {
    HeldNone(s.slots, flow);
    RunCounts(s, events, flow, r);
    FromGood(s, events);
    HeldIs(From(s, events).slots, flow);
  }

  lemma DivNext(n: nat, r: nat)
    requires r > 0
    ensures (n + 1) / r == n / r + if (n + 1) % r == 0 then 1 else 0
  {
    var q, m := n / r, n % r;
    if m == r - 1 {
      assert r * (q + 1) == r * q + r;
      ModUnique(n + 1, q + 1, 0, r);
    } else {
      ModUnique(n + 1, q, m + 1, r);
    }
  }

  lemma {:induction false} EveryCount(acks: seq<Ack>, r: nat)
    requires r > 0
    ensures |Every(acks, r)| == |acks| / r
  {
    if acks != [] {
      EveryCount(acks[..|acks| - 1], r);
      DivNext(|acks| - 1, r);
    }
  }

  /** Every r-th: the j-th passed on is the one at place r * (j + 1). */
  lemma {:induction false} EveryAt(acks: seq<Ack>, r: nat, j: nat)
    requires 0 < r * (j + 1) <= |acks|
    ensures j < |Every(acks, r)| == |acks| / r && Every(acks, r)[j] == acks[r * (j + 1) - 1]
  {
    var n, i := |acks| - 1, r * (j + 1);
    EveryCount(acks, r);
    EveryCount(acks[..n], r);
    if i <= n {
      EveryAt(acks[..n], r, j);
    } else {
      assert n == r * j + (r - 1);
      ModUnique(n, j, r - 1, r);
      ModUnique(n + 1, j + 1, 0, r);
    }
  }
}
