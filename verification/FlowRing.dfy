/**
  The flow-ring index in memory (dhd_flowring.c): hash table, chains of nodes, id allocator and
  flow ring table. Each section under the flow-id lock is one method and makes one step of the
  table of FlowIndex.
 */
module FlowRing {
  import opened FlowIndex
  import opened Id16
  import opened Sequences

  class Node {
    const flow: Flow
    var next: Node?

    constructor (flow: Flow)
      ensures this.flow == flow && next == null
    {
      this.flow := flow;
      next := null;
    }
  }

  ghost function Row(s: seq<Node>): seq<Flow> {
    seq(|s|, i requires 0 <= i < |s| => s[i].flow)
  }

  ghost function Rows(chains: seq<seq<Node>>): seq<seq<Flow>> {
    seq(|chains|, b requires 0 <= b < |chains| => Row(chains[b]))
  }

  // ---------------------------------------------------------------- chains

  ghost predicate Linked(head: Node?, s: seq<Node>)
    reads s
  {
    && head == (if s == [] then null else s[0])
    && forall i {:trigger s[i].next} :: 0 <= i < |s| ==> s[i].next == if i + 1 < |s| then s[i + 1] else null
  }

  ghost predicate NoneTwice(s: seq<Node>) {
    forall i, j :: 0 <= i < j < |s| ==> s[i] != s[j]
  }

  /** Walk to the end of a chain and link a node there. */
  method AppendNode(head: Node?, node: Node, ghost s: seq<Node>) returns (head': Node)
    requires Linked(head, s) && NoneTwice(s) && node !in s && node.next == null
    modifies s
    ensures Linked(head', s + [node])
  {
    if head == null {
      return node;
    }
    head' := head;
    var cur := head;
    ghost var i := 0;
    while cur.next != null
      invariant 0 <= i < |s| && cur == s[i]
      decreases |s| - i
    {
      cur := cur.next;
      i := i + 1;
    }
    cur.next := node;
  }

  /** Unlink the first node of a flow id from a chain. */
  method RemoveNode(head: Node?, flowid: nat, ghost s: seq<Node>) returns (found: bool, head': Node?, ghost at: nat)
    requires Linked(head, s) && NoneTwice(s)
    modifies s
    ensures found <==> HasId(Row(s), flowid)
    ensures found ==> at < |s| && s[at].flow.flowid == flowid && Linked(head', Without(s, at))
    ensures !found ==> head' == head && Linked(head, s)
  {
    found, head', at := false, head, 0;
    var cur, prev: Node? := head, null;
    while cur != null && cur.flow.flowid != flowid
      invariant at <= |s| && cur == (if at < |s| then s[at] else null)
      invariant prev == if at == 0 then null else s[at - 1]
      invariant forall j :: 0 <= j < at ==> s[j].flow.flowid != flowid
      invariant Linked(head, s)
      decreases |s| - at
    {
      prev := cur;
      cur := cur.next;
      at := at + 1;
    }
    if cur != null {
      found := true;
      assert Row(s)[at].flowid == flowid;
      if prev == null {
        head' := cur.next;
      } else {
        prev.next := cur.next;
      }
    }
  }

  // ---------------------------------------------------------------- the hash table

  /** The chains in memory are the sequences of nodes of the model. */
  ghost predicate Shape(hash: seq<Node?>, chains: seq<seq<Node>>, nodes: set<Node>)
    reads nodes
  {
    && |hash| == |chains| == BUCKETS
    && (forall b, i :: 0 <= b < BUCKETS && 0 <= i < |chains[b]| ==> chains[b][i] in nodes)
    && (forall b :: 0 <= b < BUCKETS ==> Linked(hash[b], chains[b]))
  }

  ghost predicate Disjoint(s: seq<Node>, t: seq<Node>) {
    forall i, j :: 0 <= i < |s| && 0 <= j < |t| ==> s[i] != t[j]
  }

  /** A node is in one chain only, and once. */
  lemma OneBucket(chains: seq<seq<Node>>, home: map<nat, nat>, b: nat)
    requires Placed(Rows(chains), home) && b < BUCKETS
    ensures |chains| == BUCKETS && NoneTwice(chains[b])
    ensures forall c :: 0 <= c < BUCKETS && c != b ==> Disjoint(chains[b], chains[c])
  {
    var rows := Rows(chains);
    assert ChainOk(rows[b], b, home);
    forall i, j | 0 <= i < j < |chains[b]| ensures chains[b][i] != chains[b][j] {
      assert rows[b][i].flowid != rows[b][j].flowid;
    }
    forall c | 0 <= c < BUCKETS && c != b ensures Disjoint(chains[b], chains[c]) {
      assert ChainOk(rows[c], c, home);
      forall i, j | 0 <= i < |chains[b]| && 0 <= j < |chains[c]| ensures chains[b][i] != chains[c][j] {
        assert FlowOk(rows[b][i], b, home) && FlowOk(rows[c][j], c, home);
      }
    }
  }

  /** Link a node to the end of chain b. */
  method AppendAt(hash: array<Node?>, b: nat, node: Node, ghost chains: seq<seq<Node>>, ghost nodes: set<Node>)
    requires hash.Length == BUCKETS && b < BUCKETS && Shape(hash[..], chains, nodes)
    requires NoneTwice(chains[b]) && forall c :: 0 <= c < BUCKETS && c != b ==> Disjoint(chains[b], chains[c])
    requires node !in nodes && node.next == null
    modifies hash, chains[b]
    ensures Shape(hash[..], chains[b := chains[b] + [node]], nodes + {node})
  {
    assert Linked(hash[..][b], chains[b]);
    var head := AppendNode(hash[b], node, chains[b]);
    forall c | 0 <= c < BUCKETS && c != b ensures Linked(hash[..][c], chains[c]) {
      assert old(Linked(hash[..][c], chains[c])) && Disjoint(chains[b], chains[c]);
    }
    hash[b] := head;
  }

  /** Make a node the whole of chain b. */
  method SetHead(hash: array<Node?>, b: nat, node: Node, ghost chains: seq<seq<Node>>, ghost nodes: set<Node>)
    requires hash.Length == BUCKETS && b < BUCKETS && Shape(hash[..], chains, nodes)
    requires node !in nodes && node.next == null
    modifies hash
    ensures Shape(hash[..], chains[b := [node]], nodes + {node})
  {
    ghost var was := hash[..];
    hash[b] := node;
    assert Linked(node, [node]);
    forall c | 0 <= c < BUCKETS && c != b ensures Linked(hash[..][c], chains[c]) {
      assert old(Linked(was[c], chains[c])) && hash[..][c] == was[c];
    }
  }

  /** Unlink the node of a flow id from chain b. */
  method RemoveAt(hash: array<Node?>, b: nat, flowid: nat, ghost chains: seq<seq<Node>>, ghost nodes: set<Node>)
    returns (found: bool, ghost at: nat)
    requires hash.Length == BUCKETS && b < BUCKETS && Shape(hash[..], chains, nodes)
    requires NoneTwice(chains[b]) && forall c :: 0 <= c < BUCKETS && c != b ==> Disjoint(chains[b], chains[c])
    modifies hash, chains[b]
    ensures found <==> HasId(Row(chains[b]), flowid)
    ensures found ==> at < |chains[b]| && chains[b][at].flow.flowid == flowid
    ensures found ==> Shape(hash[..], chains[b := Without(chains[b], at)], nodes)
    ensures !found ==> Shape(hash[..], chains, nodes)
  {
    assert Linked(hash[..][b], chains[b]);
    var head;
    found, head, at := RemoveNode(hash[b], flowid, chains[b]);
    forall c | 0 <= c < BUCKETS && c != b ensures Linked(hash[..][c], chains[c]) {
      assert old(Linked(hash[..][c], chains[c])) && Disjoint(chains[b], chains[c]);
    }
    hash[b] := head;
  }

  /** The chain of a node once it is linked. */
  ghost function JoinedBy(s: seq<Node>, sta: bool, node: Node): seq<Node> {
    if sta then [node] else s + [node]
  }

  method LinkIn(hash: array<Node?>, sta: bool, b: nat, node: Node, ghost chains: seq<seq<Node>>, ghost nodes: set<Node>)
    requires hash.Length == BUCKETS && b < BUCKETS && Shape(hash[..], chains, nodes)
    requires NoneTwice(chains[b]) && forall c :: 0 <= c < BUCKETS && c != b ==> Disjoint(chains[b], chains[c])
    requires node !in nodes && node.next == null
    modifies hash, chains[b]
    ensures Shape(hash[..], chains[b := JoinedBy(chains[b], sta, node)], nodes + {node})
  {
    if sta {
      SetHead(hash, b, node, chains, nodes);
    } else {
      AppendAt(hash, b, node, chains, nodes);
    }
  }

  lemma RowsJoined(chains: seq<seq<Node>>, sta: bool, b: nat, node: Node)
    requires b < |chains|
    ensures Rows(chains[b := JoinedBy(chains[b], sta, node)]) == Rows(chains)[b := Joined(Row(chains[b]), sta, node.flow)]
  {
    assert Row(JoinedBy(chains[b], sta, node)) == Joined(Row(chains[b]), sta, node.flow);
  }

  lemma RowsWithout(chains: seq<seq<Node>>, b: nat, at: nat)
    requires b < |chains| && at < |chains[b]|
    ensures Rows(chains[b := Without(chains[b], at)]) == Rows(chains)[b := Without(Row(chains[b]), at)]
  {
    assert Row(Without(chains[b], at)) == Without(Row(chains[b]), at);
  }

  // ---------------------------------------------------------------- searching a bucket

  /** Which bucket the code looks into. */
  method BucketIndex(sta: bool, ifx: nat, prio: nat, da: Mac) returns (b: nat)
    requires ifx < MAX_IFS && prio < 256
    ensures b == Bucket(KeyOf(sta, ifx, prio, da))
  {
    if sta {
      b := ifx * HASH_SIZE + prio;
    } else {
      var hash := if da.IsMulti() then 0 else HashIndex(da, prio);
      b := ifx * HASH_SIZE + hash;
    }
  }

  /** The search loop off a station. */
  method FindChain(head: Node?, prio: nat, da: Mac, ghost s: seq<Node>) returns (flowid: nat)
    requires Linked(head, s)
    ensures flowid == FirstMatch(Row(s), prio, da)
  {
    var ismcast := da.IsMulti();
    var cur := head;
    ghost var i := 0;
    while cur != null
      invariant 0 <= i <= |s| && cur == if i < |s| then s[i] else null
      invariant FirstMatch(Row(s), prio, da) == FirstMatch(Row(s)[i..], prio, da)
      decreases |s| - i
    {
      assert Row(s)[i..][1..] == Row(s)[i + 1..];
      if (ismcast && cur.flow.da.IsMulti()) || (cur.flow.da == da && cur.flow.tid == prio) {
        return cur.flow.flowid;
      }
      cur := cur.next;
      i := i + 1;
    }
    flowid := FLOWID_INVALID;
  }

  // ---------------------------------------------------------------- the index

  datatype RingStatus = Open | Pending | Closed | DeletePending | FlushPending | StaFreeing

  datatype Ring = Ring(tid: nat, ifx: nat, da: Mac, active: bool, status: RingStatus)

  class FlowLkup {
    const flHash: array<Node?>   // HASH_SIZE buckets for each of MAX_IFS interfaces
    const ids: Id16Map
    const rings: array<Ring>      // the flow ring table
    var sta: seq<bool>            // whether the role of an interface is a station's
    var status: seq<bool>
    ghost var chains: seq<seq<Node>>
    ghost var nodes: set<Node>
    ghost var table: Lkup

    /** The hash table is that of the model, and every id is accounted for. */
    ghost predicate Tables()
      reads this, flHash, nodes
    {
      && flHash.Length == BUCKETS
      && Shape(flHash[..], chains, nodes)
      && table.chains == Rows(chains) && table.roles == sta && Sound(table) == true
    }

    ghost predicate Allocator()
      reads this, ids, ids.stack
    {
      && ids.Valid() && ids.start == RING_COMMON && ids.total == rings.Length - RING_COMMON
      && table.rings == rings.Length && table.free == ids.Free()
    }

    ghost predicate Valid()
      reads this, flHash, ids, ids.stack, nodes
    {
      && flHash as object != ids.stack && flHash as object != rings && rings as object != ids.stack
      && |status| == MAX_IFS
      && Tables() && Allocator()
    }

    /** `dhd_flow_rings_init`, for the parts modelled here. */
    constructor (numFlowRings: nat)
      requires RING_COMMON < numFlowRings < ID16_INVALID
      ensures Valid() && table == Empty(numFlowRings, seq(MAX_IFS, i => true)) && rings.Length == numFlowRings
      ensures fresh(flHash) && fresh(ids) && fresh(ids.stack) && fresh(rings)
    {
      ids := new Id16Map(numFlowRings - RING_COMMON, RING_COMMON);
      flHash := new Node?[BUCKETS](i => null);
      rings := new Ring[numFlowRings](i => Ring(0, 0, Mac(0, 0, 0, 0, 0, 0), false, Closed));
      sta := seq(MAX_IFS, i => true);  // role 0 is a station
      status := seq(MAX_IFS, i => false);
      chains, nodes := seq(BUCKETS, i => []), {};
      table := Empty(numFlowRings, seq(MAX_IFS, i => true));
      new;
      EmptyPlain(numFlowRings, sta);
      assert Rows(chains) == table.chains;
      assert Shape(flHash[..], chains, nodes);
    }

    /** `dhd_flowid_find`. */
    method Find(ifx: nat, prio: nat, da: Mac) returns (flowid: nat)
      requires Valid() && ifx < MAX_IFS && prio < 256
      ensures flowid == FindIn(table.chains, table.roles, ifx, prio, da)
    {
      var b := BucketIndex(sta[ifx], ifx, prio, da);
      assert Linked(flHash[..][b], chains[b]);
      if sta[ifx] {
        flowid := if flHash[b] != null then flHash[b].flow.flowid else FLOWID_INVALID;
      } else {
        flowid := FindChain(flHash[b], prio, da, chains[b]);
      }
    }

    /** The first section of `dhd_flowid_alloc`. */
    method TakeId() returns (flowid: nat)
      requires Valid()
      modifies this`table, ids, ids.stack
      ensures Valid()
      ensures if old(table).free == {} then flowid == FLOWID_INVALID && table == old(table)
              else flowid in old(table).free && table == Take(old(table), flowid)
    {
      flowid := ids.Alloc();
      if flowid != FLOWID_INVALID {
        TakeSound(table, flowid);
        table := Take(table, flowid);
      }
    }

    /** Put a node into the bucket of its key. */
    method Insert(b: nat, node: Node)
      requires Tables() && node.flow.Ok() && b == Bucket(node.flow.KeyIn(sta))
      requires node.flow.flowid in table.flight && node !in nodes && node.next == null
      modifies flHash, this`chains, this`nodes, this`table, nodes
      ensures Tables() && nodes == old(nodes) + {node}
      ensures table == Link(old(table), node.flow)
    {
      LinkSound(table, node.flow);
      OneBucket(chains, table.home, b);
      RowsJoined(chains, sta[node.flow.ifx], b, node);
      LinkIn(flHash, sta[node.flow.ifx], b, node, chains, nodes);
      chains := chains[b := JoinedBy(chains[b], sta[node.flow.ifx], node)];
      nodes, table := nodes + {node}, Link(table, node.flow);
    }

    /** A new node for an id in flight. */
    method Issue(flowid: nat, ifx: nat, prio: nat, da: Mac)
      requires Tables() && ifx < MAX_IFS && prio < 256 && flowid in table.flight
      modifies flHash, this`chains, this`nodes, this`table, nodes
      ensures Tables() && fresh(nodes - old(nodes))
      ensures table == Link(old(table), Flow(flowid, ifx, prio, da))
    {
      var node := new Node(Flow(flowid, ifx, prio, da));
      var b := BucketIndex(sta[ifx], ifx, prio, da);
      Insert(b, node);
    }

    /** The second section of `dhd_flowid_alloc`: the bucket by the role of that moment. */
    method LinkNode(flowid: nat, ifx: nat, prio: nat, da: Mac)
      requires Valid() && ifx < MAX_IFS && prio < 256 && flowid in table.flight
      modifies flHash, this`chains, this`nodes, this`table, nodes
      ensures Valid() && fresh(nodes - old(nodes))
      ensures table == Link(old(table), Flow(flowid, ifx, prio, da))
    {
      Issue(flowid, ifx, prio, da);
    }

    /** The search of `dhd_flowid_free` through the buckets of an interface, up to unlinking the node. */
    method Unlink(ifx: nat, flowid: nat) returns (found: bool, ghost b: nat, ghost at: nat)
      requires Tables() && ifx < MAX_IFS
      modifies flHash, nodes
      ensures found ==> BucketOf(b, ifx) && at < |chains[b]| && chains[b][at].flow.flowid == flowid
      ensures found ==> Shape(flHash[..], chains[b := Without(chains[b], at)], nodes)
      ensures !found ==> Tables() && forall c :: BucketOf(c, ifx) ==> !HasId(Row(chains[c]), flowid)
    {
      found, b, at := false, ifx * HASH_SIZE, 0;
      for hashix := 0 to HASH_SIZE
        invariant Tables()
        invariant forall c :: BucketOf(c, ifx) && c < ifx * HASH_SIZE + hashix ==> !HasId(Row(chains[c]), flowid)
      {
        b := ifx * HASH_SIZE + hashix;
        OneBucket(chains, table.home, b);
        found, at := RemoveAt(flHash, ifx * HASH_SIZE + hashix, flowid, chains, nodes);
        if found {
          return;
        }
      }
    }

    /** The id of the node just unlinked goes back to the allocator. */
    method Release(ifx: nat, flowid: nat, ghost b: nat, ghost at: nat)
      requires Allocator() && Sound(table) && table.chains == Rows(chains) && table.roles == sta
      requires BucketOf(b, ifx) && at < |chains[b]| && chains[b][at].flow.flowid == flowid
      requires flHash as object != ids.stack && flHash as object != rings && rings as object != ids.stack
      requires |status| == MAX_IFS && flHash.Length == BUCKETS
      requires Shape(flHash[..], chains[b := Without(chains[b], at)], nodes)
      modifies this`chains, this`table, ids, ids.stack
      ensures Valid() && table == Free(old(table), ifx, flowid)
    {
      FoundThere(table, ifx, flowid, b, at);
      FreeSound(table, ifx, flowid);
      RowsWithout(chains, b, at);
      ids.FreeId(flowid);
      chains, table := chains[b := Without(chains[b], at)], Free(table, ifx, flowid);
    }

    /** `dhd_flowid_free`. */
    method FreeFlow(ifx: nat, flowid: nat)
      requires Valid() && ifx < MAX_IFS
      modifies flHash, this`chains, this`table, nodes, ids, ids.stack
      ensures Valid() && table == Free(old(table), ifx, flowid)
    {
      ghost var b, at;
      var found;
      found, b, at := Unlink(ifx, flowid);
      if found {
        Release(ifx, flowid, b, at);
      } else {
        FoundNowhere(table, ifx, flowid);
        FreeSound(table, ifx, flowid);
        table := Free(table, ifx, flowid);
      }
    }

    /** `dhd_flowid_alloc` when no other call comes between its two sections. */
    method Alloc(ifx: nat, prio: nat, da: Mac) returns (flowid: nat)
      requires Valid() && ifx < MAX_IFS && prio < 256
      modifies flHash, this`chains, this`nodes, this`table, nodes, ids, ids.stack
      ensures Valid() && fresh(nodes - old(nodes))
      ensures if old(table).free == {} then flowid == FLOWID_INVALID && table == old(table)
              else flowid in old(table).free && table == Link(Take(old(table), flowid), Flow(flowid, ifx, prio, da))
    {
      flowid := TakeId();
      if flowid != FLOWID_INVALID {
        LinkNode(flowid, ifx, prio, da);
      }
    }

    /** The part of `dhd_flowid_lookup` after a search that found nothing. */
    method Create(ifx: nat, prio: nat, da: Mac, created: bool) returns (ok: bool, flowid: nat)
      requires Valid() && ifx < MAX_IFS && prio < 256
      modifies flHash, this`chains, this`nodes, this`table, nodes, ids, ids.stack, rings
      ensures Valid() && fresh(nodes - old(nodes))
      ensures NewRing(status[ifx], Flow(flowid, ifx, prio, da), old(table), table, old(rings[..]), rings[..], created, ok) == true
    {
      if !status[ifx] {
        return false, FLOWID_INVALID;
      }
      ghost var free := table.free;
      flowid := Alloc(ifx, prio, da);
      if flowid == FLOWID_INVALID {
        return false, FLOWID_INVALID;
      }
      rings[flowid] := Ring(prio, ifx, da, true, Pending);
      ok := created;
    }

    /**
      `dhd_flowid_lookup` when no other call comes between its sections (FlowCalls has the calls
      that overlap). `created` is the answer of the bus to a create request; when the bus refuses,
      the call fails but the flow stays, its ring pending.
     */
    method Lookup(ifx: nat, prio: nat, da: Mac, created: bool) returns (ok: bool, flowid: nat)
      requires Valid() && ifx < MAX_IFS && prio < 256
      modifies flHash, this`chains, this`nodes, this`table, nodes, ids, ids.stack, rings
      ensures Valid() && fresh(nodes - old(nodes))
      ensures var id := FindIn(old(table).chains, old(table).roles, ifx, prio, da);
              if id == FLOWID_INVALID then
                NewRing(status[ifx], Flow(flowid, ifx, prio, da), old(table), table, old(rings[..]), rings[..], created, ok)
              else
                KnownRing(id, old(table), table, old(rings[..]), rings[..], ok, flowid)
    {
      flowid := Find(ifx, prio, da);
      FoundBelow(table, ifx, prio, da);
      if flowid == FLOWID_INVALID {
        ok, flowid := Create(ifx, prio, da, created);
      } else {
        ok := rings[flowid].status == Open || rings[flowid].status == Pending;
        flowid := if ok then flowid else FLOWID_INVALID;
      }
    }

    /** `dhd_update_interface_flow_info`. */
    method UpdateInterface(ifx: nat, add: bool, role: bool)
      requires Valid() && ifx < MAX_IFS
      modifies this`sta, this`status, this`table
      ensures Valid()
      ensures table == if add then SetRole(old(table), ifx, role) else old(table)
      ensures status == if add && role then old(status) else old(status)[ifx := add]
    {
      if add {
        sta := sta[ifx := role];
        table := SetRole(table, ifx, role);
        if !role {
          status := status[ifx := true];
        }
      } else {
        status := status[ifx := false];
      }
    }

    /** `dhd_update_interface_link_status`: only a station's link decides. */
    method UpdateLink(ifx: nat, up: bool)
      requires Valid() && ifx < MAX_IFS
      modifies this`status
      ensures Valid()
      ensures status == if sta[ifx] then old(status)[ifx := up] else old(status)
    {
      if sta[ifx] {
        status := status[ifx := up];
      }
    }
  }

  /** What a lookup does when the search finds an id. */
  ghost predicate KnownRing(id: nat, before: Lkup, after: Lkup, was: seq<Ring>, now: seq<Ring>, ok: bool, flowid: nat) {
    && id < |was| && after == before && now == was
    && (ok <==> was[id].status in {Open, Pending})
    && flowid == if ok then id else FLOWID_INVALID
  }

  /** What it does when the search finds none: `up` says that the interface is up. */
  ghost predicate NewRing(up: bool, f: Flow, before: Lkup, after: Lkup, was: seq<Ring>, now: seq<Ring>, created: bool, ok: bool)
    requires f.Ok() && |before.chains| == BUCKETS && |before.roles| == MAX_IFS
  {
    if up && before.free != {} then
      && f.flowid in before.free && f.flowid < |was| && after == Link(Take(before, f.flowid), f)
      && now == was[f.flowid := Ring(f.tid, f.ifx, f.da, true, Pending)] && ok == created
    else
      !ok && after == before && now == was
  }

  /** The node that the search meets is the one that the table names. */
  lemma FoundThere(t: Lkup, ifx: nat, id: nat, b: nat, at: nat)
    requires Sound(t) && BucketOf(b, ifx) && at < |t.chains[b]| && t.chains[b][at].flowid == id
    ensures Finds(t, ifx, id) && t.home[id] == b && At(t.chains[b], id) == at
    ensures id !in t.free && id in Range(RING_COMMON, t.rings - RING_COMMON)
  {
    assert ChainOk(t.chains[b], b, t.home) && FlowOk(t.chains[b][at], b, t.home);
  }

  lemma FoundNowhere(t: Lkup, ifx: nat, id: nat)
    requires Sound(t) && forall c :: BucketOf(c, ifx) ==> !HasId(t.chains[c], id)
    ensures !Finds(t, ifx, id)
  {
  }
}
