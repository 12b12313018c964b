/**
  TCP ACK suppression in HOLD mode (dhd_ip.c): up to four ACKs of different streams are held
  back until a newer one replaces them, enough have been replaced, or a timer fires.
 */
module AckHold {
  import opened PshPool

  /** A pure ACK with its identity, stream and acknowledgement number. */
  datatype Ack = Ack(id: nat, flow: FourTuple, num: int)

  datatype Slot = Empty | Full(pkt: Ack, ifidx: nat, suppCnt: nat)

  /** A freed ACK, and the ACK of the same stream on whose account it was freed. */
  datatype Freed = Freed(pkt: Ack, cause: Ack)

  /** The table and its counter, and what became of every ACK that is no longer in it. */
  datatype State = State(slots: seq<Slot>, cnt: int, passed: seq<Ack>, sent: seq<Ack>, freed: seq<Freed>, lost: seq<Ack>)

  datatype Event = Hold(pkt: Ack, ifidx: nat, ratio: nat) | Timer(i: nat)

  // ---------------------------------------------------------------- one step

  /** The slot of a stream, or the end of the table. */
  function Match(slots: seq<Slot>, flow: FourTuple): (m: nat)
    ensures m <= |slots|
    ensures m < |slots| ==> slots[m].Full? && slots[m].pkt.flow == flow
    ensures forall j :: 0 <= j < m ==> !(slots[j].Full? && slots[j].pkt.flow == flow)
  {
    if slots == [] then 0
    else if slots[0].Full? && slots[0].pkt.flow == flow then 0
    else 1 + Match(slots[1..], flow)
  }

  /** The first empty slot, or the end of the table. */
  function FirstFree(slots: seq<Slot>): (m: nat)
    ensures m <= |slots|
    ensures m < |slots| ==> slots[m].Empty?
    ensures forall j :: 0 <= j < m ==> slots[j].Full?
  {
    if slots == [] then 0 else if slots[0].Empty? then 0 else 1 + FirstFree(slots[1..])
  }

  /** An ACK for a stream that is in slot m. */
  function Meet(s: State, m: nat, p: Ack, ifidx: nat, ratio: nat): State
    requires m < |s.slots| && s.slots[m].Full?
  {
    var held := s.slots[m];
    if SeqGe(p.num, held.pkt.num) then
      var c := (held.suppCnt + 1) % 256;
      var s' := s.(freed := s.freed + [Freed(held.pkt, p)]);
      if c >= ratio then s'.(slots := s.slots[m := Empty], passed := s.passed + [p])
      else s'.(slots := s.slots[m := Full(p, ifidx, c)])
    else s.(freed := s.freed + [Freed(p, held.pkt)])
  }

  /** An ACK for a stream without a slot. */
  function Place(s: State, p: Ack, ifidx: nat): State {
    var f := FirstFree(s.slots);
    if f < |s.slots| then s.(slots := s.slots[f := Full(p, ifidx, 1)], cnt := s.cnt + 1)
    else s.(lost := s.lost + [p])
  }

  function Step(s: State, e: Event): State {
    match e
    case Hold(p, ifidx, ratio) =>
      if ratio == 1 then s.(passed := s.passed + [p])
      else
        var m := Match(s.slots, p.flow);
        if m < |s.slots| then Meet(s, m, p, ifidx, ratio) else Place(s, p, ifidx)
    case Timer(i) =>
      if i < |s.slots| && s.slots[i].Full? then
        s.(slots := s.slots[i := Empty], cnt := s.cnt - 1, sent := s.sent + [s.slots[i].pkt])
      else s
  }

  function Start(): State {
    State([Empty, Empty, Empty, Empty], 0, [], [], [], [])
  }

  function Run(events: seq<Event>): State {
    if events == [] then Start() else Step(Run(events[..|events| - 1]), events[|events| - 1])
  }

  // ---------------------------------------------------------------- counting

  function One(b: bool): nat {
    if b then 1 else 0
  }

  function InSlots(slots: seq<Slot>, p: Ack): nat {
    if slots == [] then 0 else One(slots[0].Full? && slots[0].pkt == p) + InSlots(slots[1..], p)
  }

  function InAcks(s: seq<Ack>, p: Ack): nat {
    if s == [] then 0 else InAcks(s[..|s| - 1], p) + One(s[|s| - 1] == p)
  }

  function InFreed(s: seq<Freed>, p: Ack): nat {
    if s == [] then 0 else InFreed(s[..|s| - 1], p) + One(s[|s| - 1].pkt == p)
  }

  /** In how many places an ACK is. */
  function Places(s: State, p: Ack): nat {
    InSlots(s.slots, p) + InAcks(s.passed, p) + InAcks(s.sent, p) + InFreed(s.freed, p) + InAcks(s.lost, p)
  }

  /** How often an ACK was submitted. */
  function Submitted(events: seq<Event>, p: Ack): nat {
    if events == [] then 0
    else Submitted(events[..|events| - 1], p) + One(events[|events| - 1].Hold? && events[|events| - 1].pkt == p)
  }

  lemma {:induction false} SlotSet(slots: seq<Slot>, i: nat, x: Slot, p: Ack)
    requires i < |slots|
    ensures InSlots(slots[i := x], p) + One(slots[i].Full? && slots[i].pkt == p)
         == InSlots(slots, p) + One(x.Full? && x.pkt == p)
  {
    if i == 0 {
      assert slots[0 := x][1..] == slots[1..];
    } else {
      SlotSet(slots[1..], i - 1, x, p);
      assert slots[i := x][1..] == slots[1..][i - 1 := x];
    }
  }

  lemma {:induction false} AllEmpty(slots: seq<Slot>, p: Ack)
    requires forall i :: 0 <= i < |slots| ==> slots[i].Empty?
    ensures InSlots(slots, p) == 0
  {
    if slots != [] {
      AllEmpty(slots[1..], p);
    }
  }

  lemma Push(s: seq<Ack>, x: Ack, p: Ack)
    ensures InAcks(s + [x], p) == InAcks(s, p) + One(x == p)
  {
    assert (s + [x])[..|s|] == s;
  }

  lemma PushFreed(s: seq<Freed>, x: Freed, p: Ack)
    ensures InFreed(s + [x], p) == InFreed(s, p) + One(x.pkt == p)
  {
    assert (s + [x])[..|s|] == s;
  }

  lemma MeetConserves(s: State, m: nat, a: Ack, ifidx: nat, ratio: nat, p: Ack)
    requires m < |s.slots| && s.slots[m].Full?
    ensures Places(Meet(s, m, a, ifidx, ratio), p) == Places(s, p) + One(a == p)
  {
    var held := s.slots[m];
    if !SeqGe(a.num, held.pkt.num) {
      PushFreed(s.freed, Freed(a, held.pkt), p);
    } else {
      PushFreed(s.freed, Freed(held.pkt, a), p);
      var c := (held.suppCnt + 1) % 256;
      if c >= ratio {
        SlotSet(s.slots, m, Empty, p);
        Push(s.passed, a, p);
      } else {
        SlotSet(s.slots, m, Full(a, ifidx, c), p);
      }
    }
  }

  /** A step moves ACKs between places, and adds the one submitted. */
  lemma StepConserves(s: State, e: Event, p: Ack)
    ensures Places(Step(s, e), p) == Places(s, p) + One(e.Hold? && e.pkt == p)
  {
    match e
    case Hold(a, ifidx, ratio) =>
      var m, f := Match(s.slots, a.flow), FirstFree(s.slots);
      if ratio == 1 {
        Push(s.passed, a, p);
      } else if m < |s.slots| {
        MeetConserves(s, m, a, ifidx, ratio, p);
      } else if f < |s.slots| {
        SlotSet(s.slots, f, Full(a, ifidx, 1), p);
      } else {
        Push(s.lost, a, p);
      }
    case Timer(i) =>
      if i < |s.slots| && s.slots[i].Full? {
        SlotSet(s.slots, i, Empty, p);
        Push(s.sent, s.slots[i].pkt, p);
      }
  }

  // ---------------------------------------------------------------- runs

  /** At most one ACK is held for a stream. */
  ghost predicate OnePerFlow(slots: seq<Slot>) {
    forall i, j :: 0 <= i < j < |slots| && slots[i].Full? && slots[j].Full? ==> slots[i].pkt.flow != slots[j].pkt.flow
  }

  /** Every freed ACK gave way to one of its own stream that is not behind it, or was itself behind the one held. */
  ghost predicate FreedFairly(freed: seq<Freed>) {
    forall k :: 0 <= k < |freed| ==>
      && freed[k].pkt.flow == freed[k].cause.flow
      && (SeqGe(freed[k].cause.num, freed[k].pkt.num) || !SeqGe(freed[k].pkt.num, freed[k].cause.num))
  }

  ghost predicate Good(s: State) {
    |s.slots| == INFO_MAXNUM && OnePerFlow(s.slots) && FreedFairly(s.freed)
  }

  lemma StepGood(s: State, e: Event)
    requires Good(s)
    ensures Good(Step(s, e))
  {
  }

  /**
    In every run the held ACKs are of different streams, and every ACK is in as many places
    (held, passed on, sent by the timer, freed, lost) as it was submitted.
   */
  lemma {:induction false} RunConserves(events: seq<Event>, p: Ack)
    ensures Good(Run(events)) && Places(Run(events), p) == Submitted(events, p)
  {
    if events == [] {
      AllEmpty(Start().slots, p);
    } else {
      var before, e := events[..|events| - 1], events[|events| - 1];
      RunConserves(before, p);
      StepConserves(Run(before), e, p);
      StepGood(Run(before), e);
    }
  }

  /** An ACK is lost exactly when it comes while every slot holds an ACK of another stream: it is not held, yet the caller does not send it. */
  lemma LostIffFull(s: State, e: Event)
    ensures Step(s, e).lost != s.lost <==>
      e.Hold? && e.ratio != 1 && forall i :: 0 <= i < |s.slots| ==> s.slots[i].Full? && s.slots[i].pkt.flow != e.pkt.flow
    ensures Step(s, e).lost == s.lost || (e.Hold? && Step(s, e).lost == s.lost + [e.pkt])
  {
    if e.Hold? {
      var m, f := Match(s.slots, e.pkt.flow), FirstFree(s.slots);
      assert |s.lost + [e.pkt]| != |s.lost|;
    }
  }

  /** Once an ACK submitted once has left its slot, no later event brings it back. */
  lemma {:induction false} LeavesOnce(events: seq<Event>, more: seq<Event>, p: Ack)
    requires Submitted(events + more, p) == 1 && Submitted(events, p) == 1
    requires InSlots(Run(events).slots, p) == 0
    ensures InSlots(Run(events + more).slots, p) == 0
    decreases |more|
  {
    if more == [] {
      assert events + more == events;
    } else {
      var rest, e := more[..|more| - 1], more[|more| - 1];
      assert (events + more)[..|events + more| - 1] == events + rest;
      SubmittedGrows(events, rest, p);
      LeavesOnce(events, rest, p);
      GoneIsLogged(Run(events + rest), e, p);
      RunConserves(events + rest, p);
      RunConserves(events + more, p);
    }
  }

  lemma {:induction false} SubmittedGrows(events: seq<Event>, more: seq<Event>, p: Ack)
    ensures Submitted(events, p) <= Submitted(events + more, p)
    decreases |more|
  {
    if more == [] {
      assert events + more == events;
    } else {
      assert (events + more)[..|events + more| - 1] == events + more[..|more| - 1];
      SubmittedGrows(events, more[..|more| - 1], p);
    }
  }

  /** What was passed on, sent, freed or lost stays so. */
  lemma GoneIsLogged(s: State, e: Event, p: Ack)
    ensures Places(Step(s, e), p) - InSlots(Step(s, e).slots, p) >= Places(s, p) - InSlots(s.slots, p)
  {
    if e.Hold? && e.ratio == 1 {
      Push(s.passed, e.pkt, p);
    } else if e.Hold? {
      var m := Match(s.slots, e.pkt.flow);
      if m == |s.slots| {
        Push(s.lost, e.pkt, p);
      } else if SeqGe(e.pkt.num, s.slots[m].pkt.num) {
        Push(s.passed, e.pkt, p);
        PushFreed(s.freed, Freed(s.slots[m].pkt, e.pkt), p);
      } else {
        PushFreed(s.freed, Freed(e.pkt, s.slots[m].pkt), p);
      }
    } else if e.i < |s.slots| && s.slots[e.i].Full? {
      Push(s.sent, s.slots[e.i].pkt, p);
    }
  }

  // ---------------------------------------------------------------- the counter

  function Occupied(slots: seq<Slot>): nat {
    if slots == [] then 0 else One(slots[0].Full?) + Occupied(slots[1..])
  }

  lemma {:induction false} NoneOccupied(slots: seq<Slot>)
    requires forall i :: 0 <= i < |slots| ==> slots[i].Empty?
    ensures Occupied(slots) == 0
  {
    if slots != [] {
      NoneOccupied(slots[1..]);
    }
  }

  lemma {:induction false} OccupiedSet(slots: seq<Slot>, i: nat, x: Slot)
    requires i < |slots|
    ensures Occupied(slots[i := x]) + One(slots[i].Full?) == Occupied(slots) + One(x.Full?)
  {
    if i == 0 {
      assert slots[0 := x][1..] == slots[1..];
    } else {
      OccupiedSet(slots[1..], i - 1, x);
      assert slots[i := x][1..] == slots[1..][i - 1 := x];
    }
  }

  /** Whether an event hands the ACK of a held stream on because enough were suppressed. */
  predicate Releases(s: State, e: Event) {
    && e.Hold? && e.ratio != 1
    && var m := Match(s.slots, e.pkt.flow);
       m < |s.slots| && SeqGe(e.pkt.num, s.slots[m].pkt.num) && (s.slots[m].suppCnt + 1) % 256 >= e.ratio
  }

  function Releasing(events: seq<Event>): nat {
    if events == [] then 0
    else Releasing(events[..|events| - 1]) + One(Releases(Run(events[..|events| - 1]), events[|events| - 1]))
  }

  lemma StepCounts(s: State, e: Event)
    ensures Step(s, e).cnt - Occupied(Step(s, e).slots) == s.cnt - Occupied(s.slots) + One(Releases(s, e))
  {
    if e.Hold? && e.ratio != 1 {
      var m, f := Match(s.slots, e.pkt.flow), FirstFree(s.slots);
      if m < |s.slots| {
        OccupiedSet(s.slots, m, Empty);
        OccupiedSet(s.slots, m, Full(e.pkt, e.ifidx, (s.slots[m].suppCnt + 1) % 256));
      } else if f < |s.slots| {
        OccupiedSet(s.slots, f, Full(e.pkt, e.ifidx, 1));
      }
    } else if e.Timer? && e.i < |s.slots| && s.slots[e.i].Full? {
      OccupiedSet(s.slots, e.i, Empty);
    }
  }

  /** The counter is not lowered when a held ACK is released by its successor, so it runs ahead by one for each. */
  lemma {:induction false} CounterDrifts(events: seq<Event>)
    ensures Run(events).cnt == Occupied(Run(events).slots) + Releasing(events)
  {
    if events == [] {
      NoneOccupied(Start().slots);
    } else {
      CounterDrifts(events[..|events| - 1]);
      StepCounts(Run(events[..|events| - 1]), events[|events| - 1]);
    }
  }

  // ---------------------------------------------------------------- runs in which this happens

  /** The k-th of five ACKs of five streams. */
  function Fresh(k: nat): Ack {
    Ack(k, FourTuple(k, 0, 0, 0), 0)
  }

  function Holds(k: nat): seq<Event> {
    seq(k, i requires 0 <= i < k => Hold(Fresh(i), 0, 2))
  }

  lemma {:induction false} FourHeld(k: nat)
    requires k <= 4
    ensures var s := Run(Holds(k));
            && |s.slots| == 4 && s.lost == []
            && forall i :: 0 <= i < 4 ==> s.slots[i] == if i < k then Full(Fresh(i), 0, 1) else Empty
  {
    if k > 0 {
      FourHeld(k - 1);
      assert Holds(k)[..k - 1] == Holds(k - 1) && Holds(k)[k - 1] == Hold(Fresh(k - 1), 0, 2);
      var f := FirstFree(Run(Holds(k - 1)).slots);
    }
  }

  /** The fifth of five streams is lost. */
  lemma FifthLost()
    ensures Run(Holds(5)).lost == [Fresh(4)]
  {
    FourHeld(4);
    assert Holds(5)[..4] == Holds(4) && Holds(5)[4] == Hold(Fresh(4), 0, 2);
    assert Match(Run(Holds(4)).slots, Fresh(4).flow) == 4;
  }

  /** One ACK held and its successor passed on leave the counter at 1 over an empty table. */
  lemma DriftReached(num: int)
    requires SeqGe(num, 0)
    ensures var s := Run([Hold(Fresh(0), 0, 2), Hold(Fresh(0).(id := 1, num := num), 0, 2)]);
      s.cnt == 1 && Occupied(s.slots) == 0 && s.passed == [Fresh(0).(id := 1, num := num)]
  {
    var first, next := Hold(Fresh(0), 0, 2), Hold(Fresh(0).(id := 1, num := num), 0, 2);
    assert Holds(1) == [first] && [first, next][..1] == [first];
    FourHeld(1);
    FourHeld(0);
    assert Holds(1)[..0] == [];
    var s := Run([first]);
    assert s == Step(Start(), first);
    assert Run([first, next]) == Step(s, next);
    NoneOccupied(Run([first, next]).slots);
  }

  // ---------------------------------------------------------------- the timers

  /**
    The table with its timers. A timer is armed until it fires; its handler then waits for the
    lock. A call that releases an ACK gives up the lock before it cancels the timer of the slot:
    `cancels` counts the calls that are in between.
   */
  datatype Timed = Timed(s: State, armed: seq<bool>, running: seq<bool>, cancels: seq<nat>)

  datatype Act = Submit(pkt: Ack, ifidx: nat, ratio: nat) | Fire(i: nat) | Handle(i: nat) | Cancel(i: nat)

  ghost predicate Shaped(t: Timed) {
    |t.s.slots| == |t.armed| == |t.running| == |t.cancels| == INFO_MAXNUM
  }

  /** `del_timer_sync` does not return while the handler runs. */
  ghost predicate Enabled(t: Timed, a: Act)
    requires Shaped(t)
  {
    match a
    case Submit(_, _, _) => true
    case Fire(i) => i < INFO_MAXNUM && t.armed[i] && !t.running[i]
    case Handle(i) => i < INFO_MAXNUM && t.running[i]
    case Cancel(i) => i < INFO_MAXNUM && t.cancels[i] > 0 && !t.running[i]
  }

  /** Whether an ACK goes into an empty slot. */
  predicate Enters(s: State, e: Event) {
    e.Hold? && e.ratio != 1 && Match(s.slots, e.pkt.flow) == |s.slots| && FirstFree(s.slots) < |s.slots|
  }

  ghost function Do(t: Timed, a: Act): Timed
    requires Shaped(t) && Enabled(t, a)
  {
    match a
    case Submit(p, ifidx, ratio) =>
      var e := Hold(p, ifidx, ratio);
      var m, f := Match(t.s.slots, p.flow), FirstFree(t.s.slots);
      Timed(Step(t.s, e),
            if Enters(t.s, e) then t.armed[f := true] else t.armed,
            t.running,
            if Releases(t.s, e) then t.cancels[m := t.cancels[m] + 1] else t.cancels)
    case Fire(i) => t.(armed := t.armed[i := false], running := t.running[i := true])
    case Handle(i) => t.(s := Step(t.s, Timer(i)), running := t.running[i := false])
    case Cancel(i) => t.(armed := t.armed[i := false], cancels := t.cancels[i := t.cancels[i] - 1])
  }

  /** Every ACK held will be sent by its timer, if by nothing else before. */
  ghost predicate Armed(t: Timed) {
    Shaped(t) && forall i :: 0 <= i < INFO_MAXNUM && t.s.slots[i].Full? ==> t.armed[i] || t.running[i]
  }

  /** Only a timer cancelled after its slot has been filled again leaves an ACK behind. */
  lemma ActArmed(t: Timed, a: Act)
    requires Armed(t) && Enabled(t, a)
    ensures Armed(Do(t, a)) <==> !(a.Cancel? && t.s.slots[a.i].Full?)
  {
    var u := Do(t, a);
    if a.Cancel? && t.s.slots[a.i].Full? {
      assert u.s.slots[a.i].Full? && !u.armed[a.i] && !u.running[a.i];
    }
  }

  function Idle(): Timed {
    Timed(Start(), [false, false, false, false], [false, false, false, false], [0, 0, 0, 0])
  }

  ghost predicate Runs(acts: seq<Act>)
    decreases |acts|, 0
  {
    acts == [] || (Runs(acts[..|acts| - 1]) && Enabled(After(acts[..|acts| - 1]), acts[|acts| - 1]))
  }

  ghost function After(acts: seq<Act>): (t: Timed)
    requires Runs(acts)
    ensures Shaped(t)
    decreases |acts|, 1
  {
    if acts == [] then Idle() else Do(After(acts[..|acts| - 1]), acts[|acts| - 1])
  }

  /** The events on the table alone. */
  ghost function Events(acts: seq<Act>): seq<Event> {
    if acts == [] then [] else
    var before, a := acts[..|acts| - 1], acts[|acts| - 1];
    match a
    case Submit(p, ifidx, ratio) => Events(before) + [Hold(p, ifidx, ratio)]
    case Handle(i) => Events(before) + [Timer(i)]
    case _ => Events(before)
  }

  /** What holds for every run of the table holds for it with its timers. */
  lemma {:induction false} TableRuns(acts: seq<Act>)
    requires Runs(acts)
    ensures After(acts).s == Run(Events(acts))
  {
    if acts != [] {
      var before := acts[..|acts| - 1];
      TableRuns(before);
      assert forall e :: (Events(before) + [e])[..|Events(before)|] == Events(before);
    }
  }

  /** No timer is cancelled after its slot has been filled again. */
  ghost predicate Timely(acts: seq<Act>)
    requires Runs(acts)
  {
    || acts == []
    || var before, a := acts[..|acts| - 1], acts[|acts| - 1];
       Timely(before) && !(a.Cancel? && After(before).s.slots[a.i].Full?)
  }

  /** In such a run every ACK held has its timer armed, or the handler on its way. */
  lemma {:induction false} RunArmed(acts: seq<Act>)
    requires Runs(acts) && Timely(acts)
    ensures Armed(After(acts))
  {
    if acts != [] {
      RunArmed(acts[..|acts| - 1]);
      ActArmed(After(acts[..|acts| - 1]), acts[|acts| - 1]);
    }
  }

  /** No ACK is submitted between a release and the cancelling of its timer. */
  ghost predicate Undisturbed(acts: seq<Act>)
    requires Runs(acts)
  {
    || acts == []
    || var before, a := acts[..|acts| - 1], acts[|acts| - 1];
       Undisturbed(before) && (a.Submit? ==> forall i :: 0 <= i < INFO_MAXNUM ==> After(before).cancels[i] == 0)
  }

  /** That is enough for every timer to be cancelled in time. */
  lemma {:induction false} UndisturbedTimely(acts: seq<Act>)
    requires Runs(acts) && Undisturbed(acts)
    ensures Timely(acts)
    ensures forall i :: 0 <= i < INFO_MAXNUM && After(acts).cancels[i] > 0 ==> After(acts).s.slots[i].Empty?
  {
    if acts != [] {
      UndisturbedTimely(acts[..|acts| - 1]);
    }
  }

  /** While the timers are armed, each ACK held can go: its timer sends it. */
  lemma HeldIsSent(t: Timed, i: nat)
    requires Armed(t) && i < INFO_MAXNUM && t.s.slots[i].Full?
    ensures t.running[i] || Enabled(t, Fire(i))
    ensures var u := if t.running[i] then t else Do(t, Fire(i));
            && Enabled(u, Handle(i))
            && var v := Do(u, Handle(i)).s;
               v.slots == t.s.slots[i := Empty] && v.sent == t.s.sent + [t.s.slots[i].pkt]
  {
  }

  lemma Then(acts: seq<Act>, a: Act)
    requires Runs(acts) && Enabled(After(acts), a)
    ensures Runs(acts + [a]) && After(acts + [a]) == Do(After(acts), a)
  {
    assert (acts + [a])[..|acts|] == acts;
  }

  /** A released ACK, and another in its slot before the timer is cancelled. */
  lemma GapFilled(num: int) returns (acts: seq<Act>)
    requires SeqGe(num, 0)
    ensures Runs(acts) && After(acts).cancels[0] == 1 && !After(acts).running[0]
    ensures After(acts).s.slots == [Full(Fresh(2), 0, 1), Empty, Empty, Empty]
  {
    var next := Fresh(0).(id := 1, num := num);
    acts := [Submit(Fresh(0), 0, 2)];
    Then([], acts[0]);
    Then(acts, Submit(next, 0, 2));
    acts := acts + [Submit(next, 0, 2)];
    Then(acts, Submit(Fresh(2), 0, 2));
    acts := acts + [Submit(Fresh(2), 0, 2)];
  }

  /** That ACK is left without a timer. */
  lemma GapStrands(num: int) returns (acts: seq<Act>)
    requires SeqGe(num, 0)
    ensures Runs(acts) && !Armed(After(acts))
    ensures var t := After(acts); t.s.slots[0] == Full(Fresh(2), 0, 1) && !t.armed[0] && !t.running[0] && t.cancels[0] == 0
  {
    acts := GapFilled(num);
    Then(acts, Cancel(0));
    acts := acts + [Cancel(0)];
  }

  // ---------------------------------------------------------------- the code

  class TcpackHold {
    const tbl: array<Slot>
    var cnt: int
    var freed: seq<Freed>

    ghost predicate Valid()
      reads this
    {
      tbl.Length == INFO_MAXNUM
    }

    /** The state, given what left the table otherwise. */
    ghost function Abs(passed: seq<Ack>, sent: seq<Ack>, lost: seq<Ack>): State
      reads this, tbl
    {
      State(tbl[..], cnt, passed, sent, freed, lost)
    }

    constructor ()
      ensures Valid() && fresh(tbl) && Abs([], [], []) == Start()
    {
      tbl := new Slot[INFO_MAXNUM](i => Empty);
      cnt, freed := 0, [];
      new;
      assert tbl[..] == [Empty, Empty, Empty, Empty];
    }

    /**
      `dhd_tcpack_hold` for a pure ACK in HOLD mode. TRUE tells the caller not to send the packet;
      that is right for every ACK but a lost one.
     */
    method Submit(pkt: Ack, ifidx: nat, ratio: nat) returns (hold: bool)
      requires Valid()
      modifies this`cnt, this`freed, tbl
      ensures var s := old(Abs([], [], [])); var s' := Step(s, Hold(pkt, ifidx, ratio));
        && Abs(s'.passed, s'.sent, s'.lost) == s'
        && (hold <==> s'.passed == [])
    {
      if ratio == 1 {
        return false;
      }
      ghost var s := Abs([], [], []);
      hold := true;
      var i, freeSlot := Search(pkt.flow);
      if i < INFO_MAXNUM {
        var was := tbl[i];
        if SeqGe(pkt.num, was.pkt.num) {
          var suppCnt := (was.suppCnt + 1) % 256;
          if suppCnt >= ratio {
            tbl[i] := Empty;
            hold := false;
          } else {
            tbl[i] := Full(pkt, ifidx, suppCnt);
          }
          freed := freed + [Freed(was.pkt, pkt)];
        } else {
          freed := freed + [Freed(pkt, was.pkt)];
        }
      } else if freeSlot < INFO_MAXNUM {
        tbl[freeSlot] := Full(pkt, ifidx, 1);
        cnt := cnt + 1;
      }
    }

    /** The search loop: the slot of the stream, and the first free one seen. */
    method Search(flow: FourTuple) returns (i: nat, freeSlot: nat)
      requires Valid()
      ensures i == Match(tbl[..], flow)
      ensures i == INFO_MAXNUM ==> freeSlot == FirstFree(tbl[..])
    {
      i, freeSlot := 0, INFO_MAXNUM;
      while i < INFO_MAXNUM
        invariant i <= INFO_MAXNUM
        invariant forall j :: 0 <= j < i ==> !(tbl[j].Full? && tbl[j].pkt.flow == flow)
        invariant freeSlot == INFO_MAXNUM || (freeSlot < i && tbl[freeSlot].Empty?)
        invariant forall j :: 0 <= j < i && j < freeSlot ==> tbl[j].Full?
      {
        if tbl[i].Empty? {
          if freeSlot == INFO_MAXNUM {
            freeSlot := i;
          }
        } else if tbl[i].pkt.flow == flow {
          return;
        }
        i := i + 1;
      }
    }

    /** `dhd_tcpack_send`, run by the timer of slot i: what it sends, if anything. */
    method Expire(i: nat) returns (pkt: seq<Ack>)
      requires Valid() && i < INFO_MAXNUM
      modifies this`cnt, tbl
      ensures var s' := Step(old(Abs([], [], [])), Timer(i)); Abs([], pkt, []) == s'
    {
      if tbl[i].Empty? {
        return [];
      }
      pkt := [tbl[i].pkt];
      tbl[i] := Empty;
      cnt := cnt - 1;
    }
  }
}
