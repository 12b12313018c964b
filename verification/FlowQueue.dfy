/** The backup queue in front of a flow ring, and the length counter it shares with others (dhd_flowring.c). */
module FlowQueue {

  // ---------------------------------------------------------------- runs over many queues

  datatype Op = Enqueue(q: nat, pkt: nat) | Dequeue(q: nat) | Reinsert(q: nat)

  /** A queue, what it accepted and what was taken from it, in order. */
  datatype Queue = Queue(pkts: seq<nat>, max: nat, accepted: seq<nat>, taken: seq<nat>)

  datatype State = State(queues: seq<Queue>, cumm: int)

  const LEN_RANGE: nat := 0x1_0000  // the length of a queue is kept in 16 bits

  predicate Full(q: Queue) {
    |q.pkts| % LEN_RANGE >= q.max
  }

  /** A reinsertion gives the packet taken last back. */
  function Step(s: State, op: Op): State {
    if op.q >= |s.queues| then s
    else
      var q := s.queues[op.q];
      match op
      case Enqueue(_, p) =>
        if Full(q) then s
        else State(s.queues[op.q := q.(pkts := q.pkts + [p], accepted := q.accepted + [p])], s.cumm + 1)
      case Dequeue(_) =>
        if q.pkts == [] then s
        else State(s.queues[op.q := q.(pkts := q.pkts[1..], taken := q.taken + [q.pkts[0]])], s.cumm - 1)
      case Reinsert(_) =>
        if q.taken == [] then s
        else
          var n := |q.taken| - 1;
          State(s.queues[op.q := q.(pkts := [q.taken[n]] + q.pkts, taken := q.taken[..n])], s.cumm + 1)
  }

  function Run(s: State, ops: seq<Op>): State {
    if ops == [] then s else Step(Run(s, ops[..|ops| - 1]), ops[|ops| - 1])
  }

  function Total(qs: seq<Queue>): nat {
    if qs == [] then 0 else |qs[0].pkts| + Total(qs[1..])
  }

  lemma {:induction false} TotalSet(qs: seq<Queue>, i: nat, q: Queue)
    requires i < |qs|
    ensures Total(qs[i := q]) + |qs[i].pkts| == Total(qs) + |q.pkts|
  {
    if i == 0 {
      assert qs[0 := q][1..] == qs[1..];
    } else {
      TotalSet(qs[1..], i - 1, q);
      assert qs[i := q][1..] == qs[1..][i - 1 := q];
    }
  }

  /** What was taken and what is queued make up what was accepted, in the same order. */
  ghost predicate InOrder(q: Queue) {
    q.taken + q.pkts == q.accepted
  }

  ghost predicate Good(s: State) {
    s.cumm == Total(s.queues) && forall i :: 0 <= i < |s.queues| ==> InOrder(s.queues[i])
  }

  lemma StepGood(s: State, op: Op)
    requires Good(s)
    ensures Good(Step(s, op))
  {
    var s' := Step(s, op);
    if op.q < |s.queues| && s' != s {
      TotalSet(s.queues, op.q, s'.queues[op.q]);
      StepInOrder(s, op);
    }
  }

  lemma StepInOrder(s: State, op: Op)
    requires op.q < |s.queues| && InOrder(s.queues[op.q])
    ensures InOrder(Step(s, op).queues[op.q])
  {
    var q := s.queues[op.q];
    match op
    case Enqueue(_, p) =>
      assert q.taken + (q.pkts + [p]) == q.taken + q.pkts + [p];
    case Dequeue(_) =>
      if q.pkts != [] {
        assert q.taken + [q.pkts[0]] + q.pkts[1..] == q.taken + q.pkts;
      }
    case Reinsert(_) =>
      if q.taken != [] {
        var n := |q.taken| - 1;
        assert q.taken[..n] + ([q.taken[n]] + q.pkts) == q.taken + q.pkts;
      }
  }

  /**
    In every run over any number of queues, no accepted packet is lost, doubled or overtaken,
    reinsertions included, and the shared counter is the number of packets in all queues.
   */
  lemma {:induction false} RunGood(s: State, ops: seq<Op>)
    requires Good(s)
    ensures Good(Run(s, ops))
  {
    if ops != [] {
      RunGood(s, ops[..|ops| - 1]);
      StepGood(Run(s, ops[..|ops| - 1]), ops[|ops| - 1]);
    }
  }

  // ---------------------------------------------------------------- the limit

  function Reinserted(ops: seq<Op>, i: nat): nat {
    if ops == [] then 0
    else Reinserted(ops[..|ops| - 1], i) + if ops[|ops| - 1] == Reinsert(i) then 1 else 0
  }

  /**
    A queue can exceed its limit by what is reinserted and no more; until the 16-bit length wraps
    it refuses a packet exactly when it has reached the limit.
   */
  lemma {:induction false} RunLimited(s: State, ops: seq<Op>, i: nat)
    requires i < |s.queues| && |s.queues[i].pkts| <= s.queues[i].max
    requires s.queues[i].max + Reinserted(ops, i) < LEN_RANGE
    ensures |Run(s, ops).queues| == |s.queues|
    ensures var q := Run(s, ops).queues[i];
      && q.max == s.queues[i].max && |q.pkts| <= q.max + Reinserted(ops, i)
      && (Full(q) <==> |q.pkts| >= q.max)
  {
    if ops != [] {
      RunLimited(s, ops[..|ops| - 1], i);
    }
  }

  /** With 65536 packets the length reads 0, and the queue takes another one. */
  lemma LengthWraps(s: State, i: nat, pkt: nat)
    requires i < |s.queues| && |s.queues[i].pkts| == LEN_RANGE && s.queues[i].max > 0
    ensures !Full(s.queues[i]) && Step(s, Enqueue(i, pkt)).queues[i].pkts == s.queues[i].pkts + [pkt]
  {
  }

  // ---------------------------------------------------------------- what goes in comes out

  function EnqueueAll(i: nat, ps: seq<nat>): seq<Op> {
    if ps == [] then [] else EnqueueAll(i, ps[..|ps| - 1]) + [Enqueue(i, ps[|ps| - 1])]
  }

  function DequeueAll(i: nat, n: nat): seq<Op> {
    if n == 0 then [] else DequeueAll(i, n - 1) + [Dequeue(i)]
  }

  lemma RunNext(s: State, ops: seq<Op>, op: Op)
    ensures Run(s, ops + [op]) == Step(Run(s, ops), op)
  {
    assert (ops + [op])[..|ops|] == ops;
  }

  /** Of packets that come one after another a queue takes those up to its limit, in order, and refuses the rest. */
  lemma {:induction false} AcceptsUpTo(s: State, i: nat, ps: seq<nat>)
    requires i < |s.queues| && |s.queues[i].pkts| <= s.queues[i].max < LEN_RANGE
    ensures var q, u := s.queues[i], Run(s, EnqueueAll(i, ps));
      var n := if |ps| < q.max - |q.pkts| then |ps| else q.max - |q.pkts|;
      u == State(s.queues[i := q.(pkts := q.pkts + ps[..n], accepted := q.accepted + ps[..n])], s.cumm + n)
    decreases |ps|
  {
    var q := s.queues[i];
    if ps == [] {
      assert q.pkts + [] == q.pkts && q.accepted + [] == q.accepted;
    } else {
      var before, p := ps[..|ps| - 1], ps[|ps| - 1];
      AcceptsUpTo(s, i, before);
      RunNext(s, EnqueueAll(i, before), Enqueue(i, p));
      if |before| < q.max - |q.pkts| {
        assert before[..|before|] + [p] == ps;
        assert q.pkts + before + [p] == q.pkts + ps && q.accepted + before + [p] == q.accepted + ps;
        assert before[..|before|] == before && ps[..|ps|] == ps;
      } else {
        var n := q.max - |q.pkts|;
        assert before[..n] == ps[..n];
        assert |q.pkts + before[..n]| == q.max;
      }
    }
  }

  /** Taking n packets gives the first n, in order. */
  lemma {:induction false} TakesInOrder(s: State, i: nat, n: nat)
    requires i < |s.queues| && n <= |s.queues[i].pkts|
    ensures var q, u := s.queues[i], Run(s, DequeueAll(i, n));
      u == State(s.queues[i := q.(pkts := q.pkts[n..], taken := q.taken + q.pkts[..n])], s.cumm - n)
    decreases n
  {
    var q := s.queues[i];
    if n == 0 {
      assert q.pkts[0..] == q.pkts && q.taken + q.pkts[..0] == q.taken;
    } else {
      TakesInOrder(s, i, n - 1);
      RunNext(s, DequeueAll(i, n - 1), Dequeue(i));
      assert q.pkts[n - 1..][1..] == q.pkts[n..];
      assert q.taken + q.pkts[..n - 1] + [q.pkts[n - 1]] == q.taken + q.pkts[..n];
    }
  }

  /** Reinserting what was just taken restores everything. */
  lemma ReinsertUndoes(s: State, i: nat)
    requires i < |s.queues| && s.queues[i].pkts != []
    ensures Step(Step(s, Dequeue(i)), Reinsert(i)) == s
  {
    var q := s.queues[i];
    assert (q.taken + [q.pkts[0]])[..|q.taken|] == q.taken;
    assert [q.pkts[0]] + q.pkts[1..] == q.pkts;
    assert s.queues[i := q] == s.queues;
  }

  // ---------------------------------------------------------------- the queue in memory

  class Packet {
    const id: nat
    var link: Packet?

    constructor (id: nat)
      ensures this.id == id && link == null
    {
      this.id, link := id, null;
    }
  }

  class Counter {
    var n: int
  }

  ghost predicate Linked(head: Packet?, s: seq<Packet>)
    reads s
  {
    && head == (if s == [] then null else s[0])
    && forall i {:trigger s[i].link} :: 0 <= i < |s| ==> s[i].link == if i + 1 < |s| then s[i + 1] else null
  }

  ghost predicate Distinct(s: seq<Packet>) {
    forall i, j :: 0 <= i < j < |s| ==> s[i] != s[j]
  }

  class FlowRingQueue {
    var head: Packet?
    var tail: Packet?
    var len: nat
    const max: nat
    var failures: nat
    const clen: Counter
    ghost var q: seq<Packet>

    ghost predicate Valid()
      reads this, q
    {
      && Distinct(q) && Linked(head, q) && len == |q| % LEN_RANGE
      && tail == if q == [] then null else q[|q| - 1]
    }

    /** `dhd_flow_queue_init`; the limit is one less than the budget, in 16 bits. */
    constructor (budget: nat, clen: Counter)
      requires budget > 1
      ensures Valid() && q == [] && max == (budget - 1) % LEN_RANGE && this.clen == clen
    {
      head, tail, len, max, failures, this.clen, q := null, null, 0, (budget - 1) % LEN_RANGE, 0, clen, [];
    }

    /** `dhd_flow_queue_enqueue`: refused, and counted, when the length has reached the limit. */
    method Enqueue(pkt: Packet) returns (ok: bool)
      requires Valid() && pkt !in q
      modifies this, clen, pkt, q
      ensures Valid() && (ok <==> |old(q)| % LEN_RANGE < max)
      ensures q == (if ok then old(q) + [pkt] else old(q)) && clen.n == old(clen.n) + (if ok then 1 else 0)
      ensures failures == old(failures) + if ok then 0 else 1
    {
      if len >= max {
        failures := failures + 1;
        return false;
      }
      if head != null {
        tail.link := pkt;
      } else {
        head := pkt;
      }
      pkt.link := null;
      tail := pkt;
      len := (len + 1) % LEN_RANGE;
      clen.n := clen.n + 1;
      q := q + [pkt];
      ok := true;
    }

    /** `dhd_flow_queue_dequeue`. */
    method Dequeue() returns (pkt: Packet?)
      requires Valid()
      modifies this, clen, q
      ensures Valid()
      ensures if old(q) == [] then pkt == null && q == [] && clen.n == old(clen.n)
              else pkt == old(q)[0] && pkt.link == null && q == old(q)[1..] && clen.n == old(clen.n) - 1
    {
      pkt := head;
      if pkt == null {
        return;
      }
      head := pkt.link;
      if head == null {
        tail := null;
      }
      len := (len + LEN_RANGE - 1) % LEN_RANGE;
      clen.n := clen.n - 1;
      pkt.link := null;
      q := q[1..];
    }

    /** `dhd_flow_queue_reinsert`: also into a queue that is full. */
    method Reinsert(pkt: Packet)
      requires Valid() && pkt !in q
      modifies this, clen, pkt
      ensures Valid() && q == [pkt] + old(q) && clen.n == old(clen.n) + 1
    {
      if head == null {
        tail := pkt;
      }
      pkt.link := head;
      head := pkt;
      len := (len + 1) % LEN_RANGE;
      clen.n := clen.n + 1;
      q := [pkt] + q;
    }
  }
}
