/**
  Lookups of flow rings that run side by side (`dhd_flowid_lookup`, dhd_flowring.c). A call goes
  through the flow-id lock three times: it searches, it takes an id, it links a node. Between
  these sections any other call, and the release of any flow id, may come.
 */
module FlowCalls {
  import opened FlowIndex
  import opened Id16

  /** Where a call is: it has found nothing, or it has an id and no node yet. */
  datatype Call = Missed(ifx: nat, prio: nat, da: Mac) | Holding(flow: Flow)

  ghost predicate CallOk(c: Call) {
    match c
    case Missed(ifx, prio, _) => ifx < MAX_IFS && prio < 256
    case Holding(f) => f.Ok()
  }

  /** The key that a call is about to add. */
  function Wants(c: Call, roles: seq<bool>): Key {
    match c
    case Missed(ifx, prio, da) => KeyOf(ifx < |roles| && roles[ifx], ifx, prio, da)
    case Holding(f) => f.KeyIn(roles)
  }

  /** The table, and the calls that have not returned yet, by their callers. */
  datatype System = System(table: Lkup, calls: map<nat, Call>)

  datatype Step =
    | Search(caller: nat, ifx: nat, prio: nat, da: Mac)
    | GiveUp(caller: nat)              // the interface is down, or no id is free
    | TakeId(caller: nat, id: nat)
    | LinkNode(caller: nat)
    | Release(ifx: nat, id: nat)       // `dhd_flowid_free`
    | NewRole(ifx: nat, role: bool)    // `dhd_update_interface_flow_info`

  /** 16 interfaces of 256 buckets, and priorities of 8 bits. */
  ghost predicate Typed(s: System) {
    && |s.table.chains| == BUCKETS && |s.table.roles| == MAX_IFS
    && forall c :: c in s.calls ==> CallOk(s.calls[c])
  }

  ghost predicate Enabled(s: System, step: Step) {
    Typed(s) && match step
    case Search(c, ifx, prio, _) => c !in s.calls && ifx < MAX_IFS && prio < 256
    case GiveUp(c) => c in s.calls && s.calls[c].Missed?
    case TakeId(c, id) => c in s.calls && s.calls[c].Missed? && id in s.table.free
    case LinkNode(c) => c in s.calls && s.calls[c].Holding?
    case Release(ifx, _) => ifx < MAX_IFS
    case NewRole(ifx, _) => ifx < MAX_IFS
  }

  ghost function Do(s: System, step: Step): System
    requires Enabled(s, step)
  {
    match step
    case Search(c, ifx, prio, da) =>
      if FindIn(s.table.chains, s.table.roles, ifx, prio, da) != FLOWID_INVALID then s
      else s.(calls := s.calls[c := Missed(ifx, prio, da)])
    case GiveUp(c) => s.(calls := s.calls - {c})
    case TakeId(c, id) => System(Take(s.table, id), s.calls[c := Holding(Held(s.calls[c], id))])
    case LinkNode(c) => System(Link(s.table, s.calls[c].flow), s.calls - {c})
    case Release(ifx, id) => s.(table := Free(s.table, ifx, id))
    case NewRole(ifx, role) => s.(table := SetRole(s.table, ifx, role))
  }

  function Held(c: Call, id: nat): Flow
    requires c.Missed?
  {
    Flow(id, c.ifx, c.prio, c.da)
  }

  /** Each call that has taken an id has its own, and every id in flight is one of these. */
  ghost predicate FlightOk(calls: map<nat, Call>, flight: set<nat>) {
    && (forall c :: c in calls && calls[c].Holding? ==> calls[c].flow.flowid in flight)
    && (forall c, d :: c in calls && d in calls && SameId(calls[c], calls[d]) ==> c == d)
    && (forall id :: id in flight ==> Holds(calls, id))
  }

  ghost predicate SameId(a: Call, b: Call) {
    a.Holding? && b.Holding? && a.flow.flowid == b.flow.flowid
  }

  ghost predicate Holds(calls: map<nat, Call>, id: nat) {
    exists c :: c in calls && calls[c].Holding? && calls[c].flow.flowid == id
  }

  ghost predicate SystemOk(s: System) {
    && Typed(s) && Sound(s.table)
    && FlightOk(s.calls, s.table.flight)
  }

  // ---------------------------------------------------------------- whatever comes in between

  lemma StepOk(s: System, step: Step)
    requires SystemOk(s) && Enabled(s, step)
    ensures SystemOk(Do(s, step))
    ensures s.table.lost <= Do(s, step).table.lost
  {
    match step
    case Search(c, ifx, prio, da) =>
      SameFlight(s.calls, s.table.flight, c, Missed(ifx, prio, da));
    case GiveUp(c) =>
      LeaveFlight(s.calls, s.table.flight, c);
    case TakeId(c, id) =>
      TakeSound(s.table, id);
      JoinFlight(s.calls, s.table.flight, c, Held(s.calls[c], id));
    case LinkNode(c) =>
      LinkSound(s.table, s.calls[c].flow);
      LandFlight(s.calls, s.table.flight, c);
    case Release(ifx, id) =>
      FreeSound(s.table, ifx, id);
    case NewRole(ifx, role) =>
  }

  lemma SameFlight(calls: map<nat, Call>, flight: set<nat>, c: nat, call: Call)
    requires FlightOk(calls, flight) && c !in calls && call.Missed?
    ensures FlightOk(calls[c := call], flight)
  {
    forall id | id in flight ensures Holds(calls[c := call], id) {
      var d :| d in calls && calls[d].Holding? && calls[d].flow.flowid == id;
      assert calls[c := call][d] == calls[d];
    }
  }

  lemma LeaveFlight(calls: map<nat, Call>, flight: set<nat>, c: nat)
    requires FlightOk(calls, flight) && c in calls && calls[c].Missed?
    ensures FlightOk(calls - {c}, flight)
  {
    forall id | id in flight ensures Holds(calls - {c}, id) {
      var d :| d in calls && calls[d].Holding? && calls[d].flow.flowid == id;
      assert (calls - {c})[d] == calls[d];
    }
  }

  lemma JoinFlight(calls: map<nat, Call>, flight: set<nat>, c: nat, f: Flow)
    requires FlightOk(calls, flight) && c in calls && calls[c].Missed? && f.flowid !in flight
    ensures FlightOk(calls[c := Holding(f)], flight + {f.flowid})
  {
    forall id | id in flight + {f.flowid} ensures Holds(calls[c := Holding(f)], id) {
      if id == f.flowid {
        assert calls[c := Holding(f)][c].flow.flowid == id;
      } else {
        var d :| d in calls && calls[d].Holding? && calls[d].flow.flowid == id;
        assert calls[c := Holding(f)][d] == calls[d];
      }
    }
  }

  lemma LandFlight(calls: map<nat, Call>, flight: set<nat>, c: nat)
    requires FlightOk(calls, flight) && c in calls && calls[c].Holding?
    ensures FlightOk(calls - {c}, flight - {calls[c].flow.flowid})
  {
    forall id | id in flight - {calls[c].flow.flowid} ensures Holds(calls - {c}, id) {
      var d :| d in calls && calls[d].Holding? && calls[d].flow.flowid == id;
      assert (calls - {c})[d] == calls[d];
    }
  }

  /** The states of a run, the first one included. */
  ghost predicate Runs(s: System, steps: seq<Step>)
    decreases |steps|
  {
    steps == [] || (Enabled(s, steps[0]) && Runs(Do(s, steps[0]), steps[1..]))
  }

  ghost function After(s: System, steps: seq<Step>): System
    requires Runs(s, steps)
    decreases |steps|
  {
    if steps == [] then s else After(Do(s, steps[0]), steps[1..])
  }

  /**
    In every run, however the calls overlap, each managed id is free, held by exactly one call,
    linked or lost; and an id that was lost stays so.
   */
  lemma {:induction false} RunAccounts(s: System, steps: seq<Step>)
    requires SystemOk(s) && Runs(s, steps)
    ensures SystemOk(After(s, steps))
    ensures s.table.lost <= After(s, steps).table.lost
    decreases |steps|
  {
    if steps != [] {
      StepOk(s, steps[0]);
      RunAccounts(Do(s, steps[0]), steps[1..]);
    }
  }

  // ---------------------------------------------------------------- while every key is absent when it is linked

  /** A link step finds its key absent, and roles change only where there are no flows. */
  ghost predicate Clear(s: System, step: Step)
    requires Enabled(s, step)
  {
    match step
    case LinkNode(c) => s.calls[c].flow.KeyIn(s.table.roles) !in s.table.index
    case NewRole(ifx, role) => role == s.table.roles[ifx] || forall k :: k in s.table.index ==> k.ifx != ifx
    case _ => true
  }

  ghost predicate ClearRun(s: System, steps: seq<Step>)
    requires Runs(s, steps)
    decreases |steps|
  {
    steps == [] || (Clear(s, steps[0]) && ClearRun(Do(s, steps[0]), steps[1..]))
  }

  ghost predicate Good(s: System) {
    SystemOk(s) && Plain(s.table)
  }

  lemma StepGood(s: System, step: Step)
    requires Good(s) && Enabled(s, step) && Clear(s, step)
    ensures Good(Do(s, step))
  {
    StepOk(s, step);
    match step
    case Search(_, _, _, _) =>
    case GiveUp(_) =>
    case TakeId(_, id) => TakeKeeps(s.table, id);
    case LinkNode(c) => LinkKeeps(s.table, s.calls[c].flow);
    case Release(ifx, id) => FreeKeeps(s.table, ifx, id);
    case NewRole(ifx, role) => RoleKeeps(s.table, ifx, role);
  }

  /** Then the table stands for the plain map throughout. */
  lemma {:induction false} RunGood(s: System, steps: seq<Step>)
    requires Good(s) && Runs(s, steps) && ClearRun(s, steps)
    ensures Good(After(s, steps))
    decreases |steps|
  {
    if steps != [] {
      StepGood(s, steps[0]);
      RunGood(Do(s, steps[0]), steps[1..]);
    }
  }

  /** And free ids, ids of calls and ids of the map share out the managed ones: none is lost, none is in two places. */
  lemma RunShares(s: System, steps: seq<Step>)
    requires Good(s) && Runs(s, steps) && ClearRun(s, steps)
    ensures var t := After(s, steps).table; Shared(t.free, t.flight, t.index.Values, {}, t.rings)
  {
    RunGood(s, steps);
    PlainIds(After(s, steps).table);
  }

  // ---------------------------------------------------------------- one call per key at a time

  /** No other call is on its way to add the key; roles change only where there are neither flows nor calls. */
  ghost predicate Alone(s: System, step: Step)
    requires Enabled(s, step)
  {
    match step
    case Search(c, ifx, prio, da) =>
      forall d :: d in s.calls ==> Wants(s.calls[d], s.table.roles) != Wants(Missed(ifx, prio, da), s.table.roles)
    case NewRole(ifx, role) =>
      role == s.table.roles[ifx]
      || ((forall k :: k in s.table.index ==> k.ifx != ifx)
          && (forall d :: d in s.calls ==> Wants(s.calls[d], s.table.roles).ifx != ifx))
    case _ => true
  }

  ghost predicate AloneRun(s: System, steps: seq<Step>)
    requires Runs(s, steps)
    decreases |steps|
  {
    steps == [] || (Alone(s, steps[0]) && AloneRun(Do(s, steps[0]), steps[1..]))
  }

  /** Calls under way want different keys, none of them in the map. */
  ghost predicate Apart(s: System) {
    && (forall c :: c in s.calls ==> Wants(s.calls[c], s.table.roles) !in s.table.index)
    && (forall c, d :: c in s.calls && d in s.calls && Wants(s.calls[c], s.table.roles) == Wants(s.calls[d], s.table.roles) ==> c == d)
  }

  lemma StepApart(s: System, step: Step)
    requires Good(s) && Apart(s) && Enabled(s, step) && Alone(s, step)
    ensures Clear(s, step) && Apart(Do(s, step))
  {
    match step
    case Search(c, ifx, prio, da) => SearchApart(s, c, ifx, prio, da);
    case GiveUp(_) =>
    case TakeId(c, id) => TakeApart(s, c, id);
    case LinkNode(_) =>
    case Release(_, _) =>
    case NewRole(ifx, role) => RoleApart(s, ifx, role);
  }

  lemma SearchApart(s: System, c: nat, ifx: nat, prio: nat, da: Mac)
    requires Good(s) && Apart(s) && Enabled(s, Search(c, ifx, prio, da)) && Alone(s, Search(c, ifx, prio, da))
    ensures Apart(Do(s, Search(c, ifx, prio, da)))
  {
    FindIsLookup(s.table, ifx, prio, da);
    IndexBelow(s.table);
  }

  lemma TakeApart(s: System, c: nat, id: nat)
    requires Good(s) && Apart(s) && Enabled(s, TakeId(c, id))
    ensures Apart(Do(s, TakeId(c, id)))
  {
    assert Wants(Holding(Held(s.calls[c], id)), s.table.roles) == Wants(s.calls[c], s.table.roles);
  }

  lemma RoleApart(s: System, ifx: nat, role: bool)
    requires Good(s) && Apart(s) && Enabled(s, NewRole(ifx, role)) && Alone(s, NewRole(ifx, role))
    ensures Apart(Do(s, NewRole(ifx, role)))
  {
    assert role == s.table.roles[ifx] ==> s.table.roles[ifx := role] == s.table.roles;
    forall c | c in s.calls ensures Wants(s.calls[c], s.table.roles[ifx := role]) == Wants(s.calls[c], s.table.roles) {
      assert CallOk(s.calls[c]);
    }
  }

  /**
    If no two calls that want the same key are under way together, every link step finds its
    key absent, so everything above holds.
   */
  lemma {:induction false} RunAlone(s: System, steps: seq<Step>)
    requires Good(s) && Apart(s) && Runs(s, steps) && AloneRun(s, steps)
    ensures ClearRun(s, steps) && Good(After(s, steps)) && Apart(After(s, steps))
    decreases |steps|
  {
    if steps != [] {
      StepApart(s, steps[0]);
      StepGood(s, steps[0]);
      RunAlone(Do(s, steps[0]), steps[1..]);
    }
  }

  // ---------------------------------------------------------------- two calls for one key

  /** Both take an id, both link. */
  function BothLink(c: nat, d: nat, a: nat, b: nat): seq<Step> {
    [TakeId(c, a), TakeId(d, b), LinkNode(c), LinkNode(d)]
  }

  /** Both search before that. */
  function Overlap(c: nat, d: nat, ifx: nat, prio: nat, da: Mac, a: nat, b: nat): seq<Step> {
    [Search(c, ifx, prio, da)] + ([Search(d, ifx, prio, da)] + BothLink(c, d, a, b))
  }

  lemma Then(s: System, step: Step, rest: seq<Step>)
    requires Enabled(s, step) && Runs(Do(s, step), rest)
    ensures Runs(s, [step] + rest) && After(s, [step] + rest) == After(Do(s, step), rest)
  {
    assert ([step] + rest)[1..] == rest;
  }

  /** The table once two calls for one key have linked their nodes. */
  ghost function Doubled(t: Lkup, fa: Flow, fb: Flow): Lkup
    requires |t.chains| == BUCKETS && |t.roles| == MAX_IFS && fa.Ok() && fb.Ok()
  {
    Link(Link(Take(Take(t, fa.flowid), fb.flowid), fa), fb)
  }

  lemma BothLinkRuns(s: System, c: nat, d: nat, call: Call, a: nat, b: nat)
    requires Typed(s) && c in s.calls && d in s.calls && c != d && call.Missed? && s.calls[c] == call && s.calls[d] == call
    requires a in s.table.free && b in s.table.free && a != b
    ensures Runs(s, BothLink(c, d, a, b))
    ensures After(s, BothLink(c, d, a, b)).table == Doubled(s.table, Held(call, a), Held(call, b))
  {
    var s1 := Do(s, TakeId(c, a));
    var s2 := Do(s1, TakeId(d, b));
    var s3 := Do(s2, LinkNode(c));
    Then(s3, LinkNode(d), []);
    Then(s2, LinkNode(c), [LinkNode(d)]);
    Then(s1, TakeId(d, b), [LinkNode(c), LinkNode(d)]);
    Then(s, TakeId(c, a), [TakeId(d, b), LinkNode(c), LinkNode(d)]);
    assert BothLink(c, d, a, b) == [TakeId(c, a)] + [TakeId(d, b), LinkNode(c), LinkNode(d)];
  }

  lemma OverlapRuns(s: System, c: nat, d: nat, ifx: nat, prio: nat, da: Mac, a: nat, b: nat)
    requires Good(s) && c !in s.calls && d !in s.calls && c != d && ifx < MAX_IFS && prio < 256
    requires a in s.table.free && b in s.table.free && a != b
    requires KeyOf(s.table.roles[ifx], ifx, prio, da) !in s.table.index
    ensures Runs(s, Overlap(c, d, ifx, prio, da, a, b))
    ensures After(s, Overlap(c, d, ifx, prio, da, a, b)).table == Doubled(s.table, Flow(a, ifx, prio, da), Flow(b, ifx, prio, da))
  {
    FindIsLookup(s.table, ifx, prio, da);
    var call := Missed(ifx, prio, da);
    var s1 := Do(s, Search(c, ifx, prio, da));
    var s2 := Do(s1, Search(d, ifx, prio, da));
    BothLinkRuns(s2, c, d, call, a, b);
    Then(s1, Search(d, ifx, prio, da), BothLink(c, d, a, b));
    Then(s, Search(c, ifx, prio, da), [Search(d, ifx, prio, da)] + BothLink(c, d, a, b));
  }

  /**
    Two calls that both miss one key. On a station the node of the first is overwritten and its
    id is lost; elsewhere both nodes stay in the chain, and a search finds the first.
   */
  lemma OverlapBreaks(t: Lkup, fa: Flow, fb: Flow)
    requires Plain(t) && fa.Ok() && fb == fa.(flowid := fb.flowid)
    requires fa.flowid in t.free && fb.flowid in t.free && fa.flowid != fb.flowid && fa.KeyIn(t.roles) !in t.index
    ensures Stranded(t, Doubled(t, fa, fb), fa, fb)
  {
    var v := Take(Take(t, fa.flowid), fb.flowid);
    TakeKeeps(t, fa.flowid);
    TakeKeeps(Take(t, fa.flowid), fb.flowid);
    LinkKeeps(v, fa);
    SecondStrands(v, fa, fb);
  }

  ghost predicate Stranded(t: Lkup, u: Lkup, fa: Flow, fb: Flow)
    requires |t.chains| == |u.chains| == BUCKETS && |u.roles| == MAX_IFS && fa.Ok()
  {
    var b := Bucket(fa.KeyIn(u.roles));
    if u.roles[fa.ifx] then
      u.lost == {fa.flowid} && FindIn(u.chains, u.roles, fa.ifx, fa.tid, fa.da) == fb.flowid
    else
      && u.chains[b] == t.chains[b] + [fa] + [fb] && !Agree(u.chains, u.roles, u.index)
      && FindIn(u.chains, u.roles, fa.ifx, fa.tid, fa.da) == fa.flowid
  }

  lemma SecondStrands(v: Lkup, fa: Flow, fb: Flow)
    requires Plain(v) && fa.Ok() && fb == fa.(flowid := fb.flowid) && Plain(Link(v, fa))
    requires fa.flowid in v.flight && fb.flowid in v.flight && fa.flowid != fb.flowid
    ensures Stranded(v, Link(Link(v, fa), fb), fa, fb)
  {
    var w := Link(v, fa);
    LinkClashes(w, fb);
    FindIsLookup(w, fa.ifx, fa.tid, fa.da);
    IndexBelow(w);
    FirstStays(w.chains[Bucket(fa.KeyIn(v.roles))], fb, fa.tid, fa.da);
  }

  /** Such a run from a table that is still empty, for either role. */
  lemma TwoCallers(role: bool, da: Mac) returns (s: System)
    ensures Good(s) && Apart(s) && s.calls == map[] && s.table.roles == seq(MAX_IFS, i => role)
    ensures Runs(s, Overlap(0, 1, 0, 0, da, 2, 3))
    ensures var u := After(s, Overlap(0, 1, 0, 0, da, 2, 3)).table;
            |u.chains| == BUCKETS && |u.roles| == MAX_IFS && Stranded(s.table, u, Flow(2, 0, 0, da), Flow(3, 0, 0, da))
  {
    s := System(Empty(4, seq(MAX_IFS, i => role)), map[]);
    EmptyPlain(4, seq(MAX_IFS, i => role));
    assert Within(2, 2, 2) && Within(3, 2, 2);
    OverlapRuns(s, 0, 1, 0, 0, da, 2, 3);
    OverlapBreaks(s.table, Flow(2, 0, 0, da), Flow(3, 0, 0, da));
  }
}
