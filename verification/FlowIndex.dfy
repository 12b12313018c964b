/**
  The flow-ring index as values (dhd_flowring.c, dhd_flowring.h): per interface a hash table of
  chains from (priority, destination) to a flow id taken from an id16 allocator. One function
  for each section that the driver runs under the flow-id lock. TDLS peers are not part of this
  model.
 */
module FlowIndex {
  import opened Id16
  import opened Sequences

  const MAX_IFS: nat := 16
  const HASH_SIZE: nat := 256
  const BUCKETS: nat := MAX_IFS * HASH_SIZE
  const RING_COMMON: nat := 2
  const FLOWID_INVALID: nat := ID16_INVALID

  datatype Mac = Mac(b0: bv8, b1: bv8, b2: bv8, b3: bv8, b4: bv8, b5: bv8) {
    /** `ETHER_ISMULTI`. */
    predicate IsMulti() {
      b0 & 1 != 0
    }
  }

  /** `DHD_FLOWRING_HASHINDEX`. */
  function HashIndex(da: Mac, prio: nat): (h: nat)
    requires prio < 256
    ensures h < HASH_SIZE
  {
    ((da.b3 ^ da.b4 ^ da.b5 ^ (prio as bv8)) as nat) % HASH_SIZE
  }

  /** What the index is a map of. A station sends everything of one priority to its access point. */
  datatype Key = Sta(ifx: nat, prio: nat) | Mcast(ifx: nat) | Ucast(ifx: nat, da: Mac, prio: nat)

  function KeyOf(sta: bool, ifx: nat, prio: nat, da: Mac): Key {
    if sta then Sta(ifx, prio) else if da.IsMulti() then Mcast(ifx) else Ucast(ifx, da, prio)
  }

  ghost predicate KeyOk(k: Key) {
    k.ifx < MAX_IFS && (k.Mcast? || k.prio < 256)
  }

  /** The bucket of a key, counted over all interfaces. */
  function Bucket(k: Key): (b: nat)
    requires KeyOk(k)
    ensures k.ifx * HASH_SIZE <= b < (k.ifx + 1) * HASH_SIZE
  {
    k.ifx * HASH_SIZE + match k
      case Sta(_, prio) => prio
      case Mcast(_) => 0
      case Ucast(_, da, prio) => HashIndex(da, prio)
  }

  /** The buckets of an interface. */
  ghost predicate BucketOf(b: int, ifx: nat) {
    0 <= b < BUCKETS && ifx * HASH_SIZE <= b < (ifx + 1) * HASH_SIZE
  }

  /** What a node of a chain records. */
  datatype Flow = Flow(flowid: nat, ifx: nat, tid: nat, da: Mac) {
    ghost predicate Ok() {
      ifx < MAX_IFS && tid < 256
    }

    function KeyIn(roles: seq<bool>): Key {
      KeyOf(ifx < |roles| && roles[ifx], ifx, tid, da)
    }
  }

  ghost predicate HasId(s: seq<Flow>, id: nat) {
    exists i :: 0 <= i < |s| && s[i].flowid == id
  }

  ghost predicate HasKey(s: seq<Flow>, k: Key, roles: seq<bool>) {
    exists i :: 0 <= i < |s| && s[i].KeyIn(roles) == k
  }

  ghost predicate DistinctIds(s: seq<Flow>) {
    forall i, j :: 0 <= i < j < |s| ==> s[i].flowid != s[j].flowid
  }

  ghost function Ids(s: seq<Flow>): set<nat> {
    set i | 0 <= i < |s| :: s[i].flowid
  }

  /**
    The hash table and the roles, the ids that are free, and history: the ids taken by calls
    that have not linked their node yet, the ids whose node was overwritten, the bucket of each
    linked id, and the plain map that the table is to stand for.
   */
  datatype Lkup = Lkup(rings: nat, chains: seq<seq<Flow>>, roles: seq<bool>, free: set<nat>,
                       flight: set<nat>, lost: set<nat>, home: map<nat, nat>, index: map<Key, nat>)

  // ---------------------------------------------------------------- the sections under the lock

  /** The comparison of the search loop. */
  predicate Matches(f: Flow, prio: nat, da: Mac) {
    (da.IsMulti() && f.da.IsMulti()) || (f.da == da && f.tid == prio)
  }

  function FirstMatch(s: seq<Flow>, prio: nat, da: Mac): nat {
    if s == [] then FLOWID_INVALID
    else if Matches(s[0], prio, da) then s[0].flowid
    else FirstMatch(s[1..], prio, da)
  }

  /** `dhd_flowid_find`: a station takes the head of the bucket unseen. */
  function FindIn(chains: seq<seq<Flow>>, roles: seq<bool>, ifx: nat, prio: nat, da: Mac): nat
    requires |chains| == BUCKETS && |roles| == MAX_IFS && ifx < MAX_IFS && prio < 256
  {
    var s := chains[Bucket(KeyOf(roles[ifx], ifx, prio, da))];
    if !roles[ifx] then FirstMatch(s, prio, da)
    else if s == [] then FLOWID_INVALID
    else s[0].flowid
  }

  /** The first section of `dhd_flowid_alloc`: an id leaves the allocator. */
  ghost function Take(t: Lkup, id: nat): Lkup {
    t.(free := t.free - {id}, flight := t.flight + {id})
  }

  /** The chain of a flow once it is linked: a station overwrites the head of the bucket. */
  function Joined(s: seq<Flow>, sta: bool, f: Flow): seq<Flow> {
    if sta then [f] else s + [f]
  }

  ghost function Overwritten(s: seq<Flow>, sta: bool): seq<Flow> {
    if sta then s else []
  }

  /** The second section of `dhd_flowid_alloc`: the node is linked. */
  ghost function Link(t: Lkup, f: Flow): Lkup
    requires |t.chains| == BUCKETS && |t.roles| == MAX_IFS && f.Ok()
  {
    var b := Bucket(f.KeyIn(t.roles));
    var out := Ids(Overwritten(t.chains[b], t.roles[f.ifx]));
    t.(chains := t.chains[b := Joined(t.chains[b], t.roles[f.ifx], f)],
       flight := t.flight - {f.flowid}, lost := t.lost + out,
       home := (t.home - out)[f.flowid := b], index := t.index[f.KeyIn(t.roles) := f.flowid])
  }

  ghost function At(s: seq<Flow>, id: nat): (i: nat)
    requires HasId(s, id)
    ensures i < |s| && s[i].flowid == id
  {
    var i :| 0 <= i < |s| && s[i].flowid == id;
    i
  }

  /** The plain map once an interface has given up an id. */
  ghost function Dropped(index: map<Key, nat>, ifx: nat, id: nat): map<Key, nat> {
    map k | k in index && !(k.ifx == ifx && index[k] == id) :: index[k]
  }

  /** The search through the buckets of the interface finds the id. */
  ghost predicate Finds(t: Lkup, ifx: nat, id: nat) {
    id in t.home && BucketOf(t.home[id], ifx) && t.home[id] < |t.chains| && HasId(t.chains[t.home[id]], id)
  }

  /** `dhd_flowid_free`: the node of the id, if the interface has one, is unlinked. */
  ghost function Free(t: Lkup, ifx: nat, id: nat): Lkup {
    if !Finds(t, ifx, id) then t.(index := Dropped(t.index, ifx, id))
    else
      var b := t.home[id];
      t.(chains := t.chains[b := Without(t.chains[b], At(t.chains[b], id))],
         free := t.free + {id}, home := t.home - {id}, index := Dropped(t.index, ifx, id))
  }

  /** A new role of an interface. */
  function SetRole(t: Lkup, ifx: nat, role: bool): Lkup
    requires ifx < |t.roles|
  {
    t.(roles := t.roles[ifx := role])
  }

  // ---------------------------------------------------------------- what always holds

  ghost predicate FlowOk(f: Flow, b: nat, home: map<nat, nat>) {
    f.Ok() && BucketOf(b, f.ifx) && f.flowid in home && home[f.flowid] == b
  }

  ghost predicate ChainOk(s: seq<Flow>, b: nat, home: map<nat, nat>) {
    && DistinctIds(s)
    && forall i :: 0 <= i < |s| ==> FlowOk(s[i], b, home)
  }

  /** Each linked id is in one chain, once, and that chain is one of its interface. */
  ghost predicate Placed(chains: seq<seq<Flow>>, home: map<nat, nat>) {
    && |chains| == BUCKETS
    && (forall b :: 0 <= b < BUCKETS ==> ChainOk(chains[b], b, home))
    && (forall id :: id in home ==> home[id] < BUCKETS && HasId(chains[home[id]], id))
  }

  /** Every managed id is free, in flight, linked or lost, and never two of these. */
  ghost predicate Shared(free: set<nat>, flight: set<nat>, linked: set<nat>, lost: set<nat>, rings: nat) {
    && RING_COMMON <= rings <= FLOWID_INVALID && free !! flight !! linked !! lost
    && free + flight + linked + lost == Range(RING_COMMON, rings - RING_COMMON)
  }

  ghost predicate Sound(t: Lkup) {
    && |t.roles| == MAX_IFS && Placed(t.chains, t.home)
    && Shared(t.free, t.flight, t.home.Keys, t.lost, t.rings)
  }

  /** Nothing linked yet. */
  ghost function Empty(rings: nat, roles: seq<bool>): Lkup
    requires RING_COMMON <= rings
  {
    Lkup(rings, seq(BUCKETS, i => []), roles, Range(RING_COMMON, rings - RING_COMMON), {}, {}, map[], map[])
  }

  lemma EmptyPlain(rings: nat, roles: seq<bool>)
    requires RING_COMMON <= rings <= FLOWID_INVALID && |roles| == MAX_IFS
    ensures Plain(Empty(rings, roles))
  {
  }

  lemma TakeSound(t: Lkup, id: nat)
    requires Sound(t) && id in t.free
    ensures Sound(Take(t, id))
  {
    var u := Take(t, id);
    assert u.free + u.flight == t.free + t.flight;
  }

  /** Linking an id in flight keeps every id accounted for, whatever the chain held before. */
  lemma LinkSound(t: Lkup, f: Flow)
    requires Sound(t) && f.Ok() && f.flowid in t.flight
    ensures Sound(Link(t, f))
  {
    var b, sta := Bucket(f.KeyIn(t.roles)), t.roles[f.ifx];
    assert ChainOk(t.chains[b], b, t.home);
    LinkPlaced(t.chains, t.home, b, sta, f);
    LinkShared(t, f, Ids(Overwritten(t.chains[b], sta)), b);
  }

  lemma LinkPlaced(chains: seq<seq<Flow>>, home: map<nat, nat>, b: nat, sta: bool, f: Flow)
    requires Placed(chains, home) && b < BUCKETS && BucketOf(b, f.ifx) && f.Ok() && f.flowid !in home
    ensures Placed(chains[b := Joined(chains[b], sta, f)], (home - Ids(Overwritten(chains[b], sta)))[f.flowid := b])
  {
    var out := Ids(Overwritten(chains[b], sta));
    var chains', home' := chains[b := Joined(chains[b], sta, f)], (home - out)[f.flowid := b];
    forall c | 0 <= c < BUCKETS ensures ChainOk(chains'[c], c, home') {
      assert ChainOk(chains[b], b, home) && ChainOk(chains[c], c, home);
      if c == b {
        JoinedOk(chains[b], b, home, sta, f);
      } else {
        forall i | 0 <= i < |chains[c]| ensures FlowOk(chains[c][i], c, home') {
          assert FlowOk(chains[c][i], c, home);
        }
      }
    }
    forall id | id in home' ensures home'[id] < BUCKETS && HasId(chains'[home'[id]], id) {
      if id == f.flowid {
        assert chains'[b][|chains'[b]| - 1] == f;
      } else {
        HasIdStays(chains, home, b, sta, f, id);
      }
    }
  }

  lemma JoinedOk(s: seq<Flow>, b: nat, home: map<nat, nat>, sta: bool, f: Flow)
    requires ChainOk(s, b, home) && BucketOf(b, f.ifx) && f.Ok() && f.flowid !in home
    ensures ChainOk(Joined(s, sta, f), b, (home - Ids(Overwritten(s, sta)))[f.flowid := b])
  {
    forall i | 0 <= i < |s| ensures FlowOk(s[i], b, home) && s[i].flowid != f.flowid {
    }
  }

  lemma HasIdStays(chains: seq<seq<Flow>>, home: map<nat, nat>, b: nat, sta: bool, f: Flow, id: nat)
    requires Placed(chains, home) && b < BUCKETS && id in home && id !in Ids(Overwritten(chains[b], sta))
    ensures HasId(chains[b := Joined(chains[b], sta, f)][home[id]], id)
  {
    var i := At(chains[home[id]], id);
    if home[id] == b {
      assert Joined(chains[b], sta, f)[i] == chains[b][i];
    }
  }

  lemma LinkShared(t: Lkup, f: Flow, out: set<nat>, b: nat)
    requires Shared(t.free, t.flight, t.home.Keys, t.lost, t.rings) && f.flowid in t.flight && out <= t.home.Keys
    ensures Shared(t.free, t.flight - {f.flowid}, (t.home - out)[f.flowid := b].Keys, t.lost + out, t.rings)
  {
    var linked := (t.home - out)[f.flowid := b].Keys;
    assert linked == t.home.Keys - out + {f.flowid};
    assert t.flight - {f.flowid} + linked + (t.lost + out) == t.flight + t.home.Keys + t.lost;
  }

  lemma FreeSound(t: Lkup, ifx: nat, id: nat)
    requires Sound(t)
    ensures Sound(Free(t, ifx, id))
  {
    if Finds(t, ifx, id) {
      FreePlaced(t.chains, t.home, id);
      var linked := (t.home - {id}).Keys;
      assert linked == t.home.Keys - {id};
      assert t.free + {id} + t.flight + linked + t.lost == t.free + t.flight + t.home.Keys + t.lost;
    }
  }

  lemma FreePlaced(chains: seq<seq<Flow>>, home: map<nat, nat>, id: nat)
    requires Placed(chains, home) && id in home
    ensures var b := home[id];
            Placed(chains[b := Without(chains[b], At(chains[b], id))], home - {id})
  {
    var b, at := home[id], At(chains[home[id]], id);
    var chains' := chains[b := Without(chains[b], at)];
    forall c | 0 <= c < BUCKETS ensures ChainOk(chains'[c], c, home - {id}) {
      assert ChainOk(chains[b], b, home) && ChainOk(chains[c], c, home);
      if c == b {
        WithoutOk(chains[b], b, home, at);
      } else {
        forall i | 0 <= i < |chains[c]| ensures FlowOk(chains[c][i], c, home - {id}) {
          assert FlowOk(chains[c][i], c, home);
        }
      }
    }
    forall d | d in home - {id} ensures home[d] < BUCKETS && HasId(chains'[home[d]], d) {
      if home[d] == b {
        var x := chains[b][At(chains[b], d)];
        StillIn(chains[b], at, x);
      }
    }
  }

  lemma WithoutOk(s: seq<Flow>, b: nat, home: map<nat, nat>, at: nat)
    requires ChainOk(s, b, home) && at < |s|
    ensures ChainOk(Without(s, at), b, home - {s[at].flowid})
  {
    var t := Without(s, at);
    forall i | 0 <= i < |t| ensures t[i] == s[if i < at then i else i + 1] {
    }
    forall i | 0 <= i < |t| ensures FlowOk(t[i], b, home - {s[at].flowid}) {
      assert FlowOk(s[if i < at then i else i + 1], b, home);
    }
  }

  // ---------------------------------------------------------------- agreement with a plain map

  /** A flow is in the bucket of its key, and the map has its id under that key. */
  ghost predicate Indexed(f: Flow, b: nat, roles: seq<bool>, index: map<Key, nat>) {
    && f.Ok()
    && var k := f.KeyIn(roles);
       Bucket(k) == b && k in index && index[k] == f.flowid
  }

  ghost predicate ChainIndexed(s: seq<Flow>, b: nat, roles: seq<bool>, index: map<Key, nat>) {
    forall i :: 0 <= i < |s| ==> Indexed(s[i], b, roles, index)
  }

  ghost predicate Agree(chains: seq<seq<Flow>>, roles: seq<bool>, index: map<Key, nat>) {
    && |chains| == BUCKETS
    && (forall b :: 0 <= b < BUCKETS ==> ChainIndexed(chains[b], b, roles, index))
    && (forall k :: k in index ==> KeyOk(k) && HasKey(chains[Bucket(k)], k, roles))
  }

  /** The table stands for the plain map, and no id is lost. */
  ghost predicate Plain(t: Lkup) {
    Sound(t) && Agree(t.chains, t.roles, t.index) && t.lost == {}
  }

  /** Then free ids, ids in flight and ids of the map share out the managed ones, and no two keys have the same. */
  lemma PlainIds(t: Lkup)
    requires Plain(t)
    ensures Shared(t.free, t.flight, t.index.Values, {}, t.rings)
    ensures forall k, l :: k in t.index && l in t.index && t.index[k] == t.index[l] ==> k == l
  {
    LinkedIds(t);
    forall k, l | k in t.index && l in t.index && t.index[k] == t.index[l] ensures k == l {
      SameId(t, k, l);
    }
  }

  lemma LinkedIds(t: Lkup)
    requires Plain(t)
    ensures t.index.Values == t.home.Keys
  {
    forall k | k in t.index ensures t.index[k] in t.home {
      var i := KeyHome(t, k);
    }
    forall id | id in t.home ensures id in t.index.Values {
      var b := t.home[id];
      var f := t.chains[b][At(t.chains[b], id)];
      assert ChainIndexed(t.chains[b], b, t.roles, t.index) && Indexed(f, b, t.roles, t.index);
    }
  }

  /** The ids of the map name rings, and not the common ones. */
  lemma IndexBelow(t: Lkup)
    requires Plain(t)
    ensures forall k :: k in t.index ==> RING_COMMON <= t.index[k] < t.rings <= FLOWID_INVALID
  {
    PlainIds(t);
    forall k | k in t.index ensures RING_COMMON <= t.index[k] < t.rings {
      assert t.index[k] in t.index.Values;
      assert t.index[k] in Range(RING_COMMON, t.rings - RING_COMMON);
    }
  }

  /** The node of a key. */
  lemma KeyHome(t: Lkup, k: Key) returns (i: nat)
    requires Plain(t) && k in t.index
    ensures KeyOk(k) && i < |t.chains[Bucket(k)]| && t.chains[Bucket(k)][i].KeyIn(t.roles) == k
    ensures t.chains[Bucket(k)][i].flowid == t.index[k]
    ensures t.index[k] in t.home && t.home[t.index[k]] == Bucket(k)
  {
    var b := Bucket(k);
    assert HasKey(t.chains[b], k, t.roles);
    i :| 0 <= i < |t.chains[b]| && t.chains[b][i].KeyIn(t.roles) == k;
    assert ChainOk(t.chains[b], b, t.home) && ChainIndexed(t.chains[b], b, t.roles, t.index);
    assert FlowOk(t.chains[b][i], b, t.home) && Indexed(t.chains[b][i], b, t.roles, t.index);
  }

  lemma SameId(t: Lkup, k: Key, l: Key)
    requires Plain(t) && k in t.index && l in t.index && t.index[k] == t.index[l]
    ensures k == l
  {
    var i := KeyHome(t, k);
    var j := KeyHome(t, l);
    assert ChainOk(t.chains[Bucket(k)], Bucket(k), t.home);
  }

  /** The search finds what the map says. */
  lemma FindIsLookup(t: Lkup, ifx: nat, prio: nat, da: Mac)
    requires Plain(t) && ifx < MAX_IFS && prio < 256
    ensures var k := KeyOf(t.roles[ifx], ifx, prio, da);
            FindIn(t.chains, t.roles, ifx, prio, da) == if k in t.index then t.index[k] else FLOWID_INVALID
  {
    var k := KeyOf(t.roles[ifx], ifx, prio, da);
    var s := t.chains[Bucket(k)];
    assert ChainIndexed(s, Bucket(k), t.roles, t.index);
    if k in t.index {
      var i := KeyHome(t, k);
    }
    if t.roles[ifx] {
      assert s != [] ==> Indexed(s[0], Bucket(k), t.roles, t.index);
      StaBucket(s, k, t.roles, t.index);
    } else {
      ScanFinds(s, ifx, prio, da, t.roles, t.index);
    }
  }

  /** Packets share a ring if on a station their priority, elsewhere their priority and destination are the same, or both are multicasts. */
  lemma SameRing(t: Lkup, ifx: nat, prio: nat, da: Mac, ifx': nat, prio': nat, da': Mac)
    requires Plain(t) && ifx < MAX_IFS && ifx' < MAX_IFS && prio < 256 && prio' < 256
    requires FindIn(t.chains, t.roles, ifx, prio, da) != FLOWID_INVALID && FindIn(t.chains, t.roles, ifx', prio', da') != FLOWID_INVALID
    ensures FindIn(t.chains, t.roles, ifx, prio, da) == FindIn(t.chains, t.roles, ifx', prio', da')
       <==> ifx == ifx' && if t.roles[ifx] then prio == prio' else (da.IsMulti() && da'.IsMulti()) || (da == da' && prio == prio')
  {
    FindIsLookup(t, ifx, prio, da);
    FindIsLookup(t, ifx', prio', da');
    PlainIds(t);
  }

  /** In a station's bucket there is only the one key. */
  lemma StaBucket(s: seq<Flow>, k: Key, roles: seq<bool>, index: map<Key, nat>)
    requires |roles| == MAX_IFS && k.Sta? && KeyOk(k) && roles[k.ifx]
    requires ChainIndexed(s, Bucket(k), roles, index)
    ensures forall i :: 0 <= i < |s| ==> s[i].KeyIn(roles) == k
  {
  }

  /** Off a station, the comparison of the search loop is equality of keys. */
  lemma MatchIsKey(f: Flow, ifx: nat, prio: nat, da: Mac, roles: seq<bool>, index: map<Key, nat>)
    requires |roles| == MAX_IFS && ifx < MAX_IFS && prio < 256 && !roles[ifx]
    requires Indexed(f, Bucket(KeyOf(false, ifx, prio, da)), roles, index)
    ensures Matches(f, prio, da) <==> f.KeyIn(roles) == KeyOf(false, ifx, prio, da)
  {
  }

  lemma {:induction false} ScanFinds(s: seq<Flow>, ifx: nat, prio: nat, da: Mac, roles: seq<bool>, index: map<Key, nat>)
    requires |roles| == MAX_IFS && ifx < MAX_IFS && prio < 256 && !roles[ifx]
    requires ChainIndexed(s, Bucket(KeyOf(false, ifx, prio, da)), roles, index)
    ensures var k := KeyOf(false, ifx, prio, da);
            if HasKey(s, k, roles) then k in index && FirstMatch(s, prio, da) == index[k] else FirstMatch(s, prio, da) == FLOWID_INVALID
  {
    if s != [] {
      assert Indexed(s[0], Bucket(KeyOf(false, ifx, prio, da)), roles, index);
      MatchIsKey(s[0], ifx, prio, da, roles, index);
      ScanFinds(s[1..], ifx, prio, da, roles, index);
    }
  }

  /** What comes behind a match is not looked at. */
  lemma {:induction false} FirstStays(s: seq<Flow>, f: Flow, prio: nat, da: Mac)
    ensures FirstMatch(s, prio, da) != FLOWID_INVALID ==> FirstMatch(s + [f], prio, da) == FirstMatch(s, prio, da)
  {
    if s != [] {
      assert (s + [f])[1..] == s[1..] + [f];
      FirstStays(s[1..], f, prio, da);
    }
  }

  /** Linking a node keeps the table standing for the map, without loss, if and only if the map lacks its key at that moment. */
  lemma LinkKeeps(t: Lkup, f: Flow)
    requires Plain(t) && f.Ok() && f.flowid in t.flight
    ensures Plain(Link(t, f)) <==> f.KeyIn(t.roles) !in t.index
  {
    LinkSound(t, f);
    if f.KeyIn(t.roles) in t.index {
      LinkClashes(t, f);
    } else {
      LinkAgrees(t, f);
    }
  }

  /** A new key goes to the end of its chain, on a station because that chain is empty. */
  lemma NothingOverwritten(t: Lkup, f: Flow)
    requires Plain(t) && f.Ok() && f.KeyIn(t.roles) !in t.index
    ensures var s := t.chains[Bucket(f.KeyIn(t.roles))];
            Overwritten(s, t.roles[f.ifx]) == [] && Joined(s, t.roles[f.ifx], f) == s + [f]
  {
    var k := f.KeyIn(t.roles);
    var s := t.chains[Bucket(k)];
    assert ChainIndexed(s, Bucket(k), t.roles, t.index);
    if t.roles[f.ifx] && s != [] {
      assert Indexed(s[0], Bucket(k), t.roles, t.index);
      StaBucket(s, k, t.roles, t.index);
      assert false;
    }
  }

  lemma LinkAgrees(t: Lkup, f: Flow)
    requires Plain(t) && f.Ok() && f.flowid in t.flight && f.KeyIn(t.roles) !in t.index
    ensures Agree(Link(t, f).chains, t.roles, Link(t, f).index) && Link(t, f).lost == {}
  {
    var k, u := f.KeyIn(t.roles), Link(t, f);
    var b := Bucket(k);
    NothingOverwritten(t, f);
    forall c | 0 <= c < BUCKETS ensures ChainIndexed(u.chains[c], c, t.roles, u.index) {
      assert ChainIndexed(t.chains[c], c, t.roles, t.index);
    }
    forall l | l in u.index ensures KeyOk(l) && HasKey(u.chains[Bucket(l)], l, t.roles) {
      if l == k {
        assert u.chains[b][|t.chains[b]|] == f;
      } else {
        var i := KeyHome(t, l);
        assert u.chains[Bucket(l)][i] == t.chains[Bucket(l)][i];
      }
    }
  }

  /** Off a station the chain then has two nodes of one key; on a station the older id is lost. */
  lemma LinkClashes(t: Lkup, f: Flow)
    requires Plain(t) && f.Ok() && f.flowid in t.flight && f.KeyIn(t.roles) in t.index
    ensures var k, u := f.KeyIn(t.roles), Link(t, f);
            if t.roles[f.ifx] then u.lost == {t.index[k]} else !Agree(u.chains, t.roles, u.index)
  {
    var k, u := f.KeyIn(t.roles), Link(t, f);
    var b := Bucket(k);
    var i := KeyHome(t, k);
    var s := t.chains[b];
    assert ChainOk(s, b, t.home) && ChainIndexed(s, b, t.roles, t.index);
    if t.roles[f.ifx] {
      StaBucket(s, k, t.roles, t.index);
      forall j | 0 <= j < |s| ensures s[j].flowid == t.index[k] {
        assert Indexed(s[j], b, t.roles, t.index);
      }
      assert u.lost == Ids(s);
      assert s[i].flowid in Ids(s);
    } else {
      assert u.chains[b][i] == s[i] && !Indexed(u.chains[b][i], b, t.roles, u.index);
    }
  }

  lemma TakeKeeps(t: Lkup, id: nat)
    requires Plain(t) && id in t.free
    ensures Plain(Take(t, id))
  {
    TakeSound(t, id);
  }

  lemma FreeKeeps(t: Lkup, ifx: nat, id: nat)
    requires Plain(t) && ifx < MAX_IFS
    ensures Plain(Free(t, ifx, id))
  {
    FreeSound(t, ifx, id);
    if Finds(t, ifx, id) {
      FreeAgrees(t, ifx, id);
    } else {
      NothingDropped(t, ifx, id);
    }
  }

  /** An interface that gives up an id loses its key of that id and no other, and the id is free if it had one. */
  lemma FreeDrops(t: Lkup, ifx: nat, id: nat)
    requires Plain(t) && ifx < MAX_IFS
    ensures var u := Free(t, ifx, id);
      && (forall k :: k in u.index <==> k in t.index && !(k.ifx == ifx && t.index[k] == id))
      && (forall k :: k in u.index ==> u.index[k] == t.index[k])
      && u.free == t.free + (if exists k :: k in t.index && k.ifx == ifx && t.index[k] == id then {id} else {})
  {
    if Finds(t, ifx, id) {
      var b := t.home[id];
      var f := t.chains[b][At(t.chains[b], id)];
      assert ChainOk(t.chains[b], b, t.home) && FlowOk(f, b, t.home);
      assert ChainIndexed(t.chains[b], b, t.roles, t.index) && Indexed(f, b, t.roles, t.index);
      assert f.KeyIn(t.roles) in t.index && f.KeyIn(t.roles).ifx == ifx;
    } else {
      NothingDropped(t, ifx, id);
      assert forall k :: k in t.index && k.ifx == ifx && t.index[k] == id ==> k !in Dropped(t.index, ifx, id);
    }
  }

  /** A search that found an id finds nothing once the interface has given it up. */
  lemma FreedIsGone(t: Lkup, ifx: nat, prio: nat, da: Mac)
    requires Plain(t) && ifx < MAX_IFS && prio < 256 && FindIn(t.chains, t.roles, ifx, prio, da) != FLOWID_INVALID
    ensures var id := FindIn(t.chains, t.roles, ifx, prio, da); var u := Free(t, ifx, id);
      Plain(u) && id in u.free && FindIn(u.chains, u.roles, ifx, prio, da) == FLOWID_INVALID
  {
    var id := FindIn(t.chains, t.roles, ifx, prio, da);
    FindIsLookup(t, ifx, prio, da);
    FreeKeeps(t, ifx, id);
    FreeDrops(t, ifx, id);
    FindIsLookup(Free(t, ifx, id), ifx, prio, da);
  }

  lemma NothingDropped(t: Lkup, ifx: nat, id: nat)
    requires Plain(t) && ifx < MAX_IFS && !Finds(t, ifx, id)
    ensures Dropped(t.index, ifx, id) == t.index
  {
    forall k | k in t.index && k.ifx == ifx ensures t.index[k] != id {
      var i := KeyHome(t, k);
    }
  }

  lemma FreeAgrees(t: Lkup, ifx: nat, id: nat)
    requires Plain(t) && Finds(t, ifx, id)
    ensures var u := Free(t, ifx, id); Agree(u.chains, t.roles, u.index)
  {
    var u := Free(t, ifx, id);
    forall c | 0 <= c < BUCKETS ensures ChainIndexed(u.chains[c], c, t.roles, u.index) {
      StayIndexed(t, ifx, id, c);
    }
    forall k | k in u.index ensures KeyOk(k) && HasKey(u.chains[Bucket(k)], k, t.roles) {
      StaysThere(t, ifx, id, k);
    }
  }

  lemma StayIndexed(t: Lkup, ifx: nat, id: nat, c: nat)
    requires Plain(t) && Finds(t, ifx, id) && c < BUCKETS
    ensures var u := Free(t, ifx, id); ChainIndexed(u.chains[c], c, t.roles, u.index)
  {
    var u, b := Free(t, ifx, id), t.home[id];
    var at := At(t.chains[b], id);
    forall i | 0 <= i < |u.chains[c]| ensures Indexed(u.chains[c][i], c, t.roles, u.index) {
      StaysIndexed(t, ifx, id, c, if c == b && at <= i then i + 1 else i);
    }
  }

  lemma StaysThere(t: Lkup, ifx: nat, id: nat, k: Key)
    requires Plain(t) && Finds(t, ifx, id) && k in Dropped(t.index, ifx, id)
    ensures KeyOk(k) && HasKey(Free(t, ifx, id).chains[Bucket(k)], k, t.roles)
  {
    var i := KeyHome(t, k);
    var s := t.chains[Bucket(k)];
    if Bucket(k) == t.home[id] {
      StillIn(s, At(s, id), s[i]);
    }
  }

  lemma StaysIndexed(t: Lkup, ifx: nat, id: nat, c: nat, i: nat)
    requires Plain(t) && Finds(t, ifx, id) && c < BUCKETS && i < |t.chains[c]|
    requires c == t.home[id] ==> i != At(t.chains[c], id)
    ensures Indexed(t.chains[c][i], c, t.roles, Dropped(t.index, ifx, id))
  {
    assert ChainOk(t.chains[c], c, t.home) && ChainIndexed(t.chains[c], c, t.roles, t.index);
    assert FlowOk(t.chains[c][i], c, t.home) && Indexed(t.chains[c][i], c, t.roles, t.index);
  }

  lemma RoleElsewhere(s: seq<Flow>, b: nat, roles: seq<bool>, index: map<Key, nat>, ifx: nat, role: bool)
    requires |roles| == MAX_IFS && ifx < MAX_IFS && ChainIndexed(s, b, roles, index)
    requires forall k :: k in index ==> k.ifx != ifx
    ensures ChainIndexed(s, b, roles[ifx := role], index)
    ensures forall i :: 0 <= i < |s| ==> s[i].KeyIn(roles[ifx := role]) == s[i].KeyIn(roles)
  {
    forall i | 0 <= i < |s| ensures s[i].KeyIn(roles[ifx := role]) == s[i].KeyIn(roles) && Indexed(s[i], b, roles[ifx := role], index) {
      assert Indexed(s[i], b, roles, index);
    }
  }

  /** Changing the role of an interface keeps the table standing for the map if and only if the interface has no flows. */
  lemma RoleKeeps(t: Lkup, ifx: nat, role: bool)
    requires Plain(t) && ifx < MAX_IFS
    ensures Plain(SetRole(t, ifx, role)) <==> (role == t.roles[ifx] || forall k :: k in t.index ==> k.ifx != ifx)
  {
    var roles := t.roles[ifx := role];
    if role == t.roles[ifx] {
      assert roles == t.roles;
    } else if k :| k in t.index && k.ifx == ifx {
      RoleHides(t, ifx, role, k);
    } else {
      RoleAgrees(t, ifx, role);
    }
  }

  lemma RoleAgrees(t: Lkup, ifx: nat, role: bool)
    requires Plain(t) && ifx < MAX_IFS && forall k :: k in t.index ==> k.ifx != ifx
    ensures Agree(t.chains, t.roles[ifx := role], t.index)
  {
    var roles := t.roles[ifx := role];
    forall b | 0 <= b < BUCKETS ensures ChainIndexed(t.chains[b], b, roles, t.index) {
      assert ChainIndexed(t.chains[b], b, t.roles, t.index);
      RoleElsewhere(t.chains[b], b, t.roles, t.index, ifx, role);
    }
    forall k | k in t.index ensures KeyOk(k) && HasKey(t.chains[Bucket(k)], k, roles) {
      RoleKey(t, ifx, role, k);
    }
  }

  lemma RoleKey(t: Lkup, ifx: nat, role: bool, k: Key)
    requires Plain(t) && ifx < MAX_IFS && k in t.index && forall k :: k in t.index ==> k.ifx != ifx
    ensures KeyOk(k) && HasKey(t.chains[Bucket(k)], k, t.roles[ifx := role])
  {
    var i := KeyHome(t, k);
    assert ChainIndexed(t.chains[Bucket(k)], Bucket(k), t.roles, t.index);
    RoleElsewhere(t.chains[Bucket(k)], Bucket(k), t.roles, t.index, ifx, role);
  }

  /** A flow of the interface is then under a key that the map does not have. */
  lemma RoleHides(t: Lkup, ifx: nat, role: bool, k: Key)
    requires Plain(t) && ifx < MAX_IFS && role != t.roles[ifx] && k in t.index && k.ifx == ifx
    ensures !Agree(t.chains, t.roles[ifx := role], t.index)
  {
    var i := KeyHome(t, k);
    var f := t.chains[Bucket(k)][i];
    var l := f.KeyIn(t.roles[ifx := role]);
    if l in t.index {
      var j := KeyHome(t, l);
      assert false;
    }
    assert !Indexed(f, Bucket(k), t.roles[ifx := role], t.index);
  }

  /** An id that a search finds names a flow ring. */
  lemma FoundBelow(t: Lkup, ifx: nat, prio: nat, da: Mac)
    requires Sound(t) && ifx < MAX_IFS && prio < 256
    ensures var id := FindIn(t.chains, t.roles, ifx, prio, da);
            id != FLOWID_INVALID ==> RING_COMMON <= id < t.rings
    ensures forall id :: id in t.free ==> id < t.rings
  {
    var id := FindIn(t.chains, t.roles, ifx, prio, da);
    var b := Bucket(KeyOf(t.roles[ifx], ifx, prio, da));
    FirstIsThere(t.chains[b], prio, da);
    forall i | i in t.free + t.home.Keys ensures RING_COMMON <= i < t.rings {
      assert i in Range(RING_COMMON, t.rings - RING_COMMON);
    }
    if id != FLOWID_INVALID {
      assert HasId(t.chains[b], id);
      assert ChainOk(t.chains[b], b, t.home) && FlowOk(t.chains[b][At(t.chains[b], id)], b, t.home);
    }
  }

  lemma {:induction false} FirstIsThere(s: seq<Flow>, prio: nat, da: Mac)
    ensures FirstMatch(s, prio, da) != FLOWID_INVALID ==> HasId(s, FirstMatch(s, prio, da))
  {
    if s != [] && !Matches(s[0], prio, da) {
      FirstIsThere(s[1..], prio, da);
      if FirstMatch(s[1..], prio, da) != FLOWID_INVALID {
        var i := At(s[1..], FirstMatch(s[1..], prio, da));
        assert s[i + 1].flowid == FirstMatch(s, prio, da);
      }
    }
  }

  /** A lookup that nothing disturbs does to the plain map what its caller expects. */
  lemma LookupIsPlain(t: Lkup, f: Flow)
    requires Plain(t) && f.Ok() && f.flowid in t.free
    requires FindIn(t.chains, t.roles, f.ifx, f.tid, f.da) == FLOWID_INVALID
    ensures f.KeyIn(t.roles) !in t.index
    ensures var u := Link(Take(t, f.flowid), f); Plain(u) && u.index == t.index[f.KeyIn(t.roles) := f.flowid]
  {
    FindIsLookup(t, f.ifx, f.tid, f.da);
    IndexBelow(t);
    TakeKeeps(t, f.flowid);
    LinkKeeps(Take(t, f.flowid), f);
  }

  /** A station's flow of priority 3, hidden when the interface becomes an access point. */
  lemma RoleHidesOne()
    ensures var da := Mac(0, 0, 0, 0, 0, 1);
      var t := Link(Take(Empty(4, seq(MAX_IFS, i => true)), 2), Flow(2, 0, 3, da));
      var u := SetRole(t, 0, false);
      && Plain(t) && FindIn(t.chains, t.roles, 0, 3, da) == 2
      && !Plain(u) && u.home == t.home && FindIn(u.chains, u.roles, 0, 3, da) == FLOWID_INVALID
  {
    var da := Mac(0, 0, 0, 0, 0, 1);
    var e, f := Empty(4, seq(MAX_IFS, i => true)), Flow(2, 0, 3, da);
    EmptyPlain(4, seq(MAX_IFS, i => true));
    assert Within(2, 2, 2);
    LookupIsPlain(e, f);
    var t := Link(Take(e, 2), f);
    assert Sta(0, 3) in t.index;
    RoleKeeps(t, 0, false);
    assert HashIndex(da, 3) == 2;
    assert t.chains[2] == [];
  }
}
