/**
  The object trace (BCM_OBJECT_TRACE in bcmutils.c): a fixed pool of nodes on two circular
  doubly linked lists, the free ones and those that stand for a live object.
 */
module ObjectList {
  import opened Sequences

  class DbgObj {
    var prior: DbgObj?
    var next: DbgObj?
    var obj: nat

    constructor ()
      ensures obj == 0
    {
      prior, next, obj := null, null, 0;
    }
  }

  /** The places next to place i in a circle of n. */
  function Succ(n: nat, i: nat): (j: nat)
    requires i < n
    ensures j < n && i == if j > 0 then j - 1 else n - 1
  {
    if i + 1 < n then i + 1 else 0
  }

  function Pred(n: nat, i: nat): (j: nat)
    requires i < n
    ensures j < n && Succ(n, j) == i
  {
    if i > 0 then i - 1 else n - 1
  }

  ghost predicate Distinct(s: seq<DbgObj>) {
    forall i, j :: 0 <= i < j < |s| ==> s[i] != s[j]
  }

  /** The nodes are linked in a circle both ways. */
  ghost predicate Linked(s: seq<DbgObj>)
    reads s`next, s`prior
  {
    && (forall i {:trigger s[i].next} :: 0 <= i < |s| ==> s[i].next == s[Succ(|s|, i)])
    && (forall i {:trigger s[i].prior} :: 0 <= i < |s| ==> s[i].prior == s[Pred(|s|, i)])
  }

  /** A list as the code sees it: the head and the tail of a circle. */
  ghost predicate Ring(head: DbgObj?, tail: DbgObj?, s: seq<DbgObj>)
    reads s`next, s`prior
  {
    && Distinct(s) && Linked(s)
    && head == (if s == [] then null else s[0])
    && tail == (if s == [] then null else s[|s| - 1])
  }

  /** In a list next and prior undo each other, and the head's prior is the tail. */
  lemma Inverse(head: DbgObj?, tail: DbgObj?, s: seq<DbgObj>, n: DbgObj)
    requires Ring(head, tail, s) && n in s
    ensures n.next != null && n.prior != null && n.next in s && n.prior in s && n.next.prior == n && n.prior.next == n
    ensures head != null && tail != null && head.prior == tail && tail.next == head
  {
    var i :| 0 <= i < |s| && s[i] == n;
    InverseAt(s, i);
    InverseAt(s, 0);
  }

  lemma InverseAt(s: seq<DbgObj>, i: nat)
    requires Linked(s) && i < |s|
    ensures var j, k := Succ(|s|, i), Pred(|s|, i);
      s[i].next == s[j] && s[i].prior == s[k] && s[j].prior == s[i] && s[k].next == s[i]
  {
    assert s[Succ(|s|, i)].prior == s[Pred(|s|, Succ(|s|, i))];
    assert s[Pred(|s|, i)].next == s[Succ(|s|, Pred(|s|, i))];
  }

  lemma WithoutDistinct(s: seq<DbgObj>, k: nat)
    requires Distinct(s) && k < |s|
    ensures Distinct(Without(s, k)) && s[k] !in Without(s, k)
  {
  }

  /** The circle without place k: neighbours of k become neighbours, all others stay. */
  lemma WithoutPlace(n: nat, k: nat, i: nat)
    requires n >= 2 && k < n && i < n - 1
    ensures var i' := Back(k, i);
      && Back(k, Succ(n - 1, i)) == (if i' == Pred(n, k) then Succ(n, k) else Succ(n, i'))
      && Back(k, Pred(n - 1, i)) == (if i' == Succ(n, k) then Pred(n, k) else Pred(n, i'))
  {
  }

  /** Where the element at place i of a sequence without place k was before. */
  function Back(k: nat, i: nat): nat {
    if i < k then i else i + 1
  }

  lemma WithoutEnds(s: seq<DbgObj>, k: nat)
    requires k < |s|
    ensures |s| > 1 ==> Without(s, k)[0] == s[if k == 0 then 1 else 0]
    ensures |s| > 1 ==> Without(s, k)[|s| - 2] == s[if k == |s| - 1 then |s| - 2 else |s| - 1]
  {
  }

  class DbgList {
    var head: DbgObj?
    var tail: DbgObj?
    ghost var s: seq<DbgObj>

    ghost predicate Valid()
      reads this, s`next, s`prior
    {
      Ring(head, tail, s)
    }

    constructor ()
      ensures Valid() && s == []
    {
      head, tail, s := null, null, [];
    }

    /** `bcm_object_trace_init`: a circle of n fresh nodes. */
    constructor Pool(n: nat)
      requires n > 0
      ensures Valid() && |s| == n && fresh(s)
    {
      head, tail, s := null, null, [];
      new;
      var nodes: seq<DbgObj> := [];
      while |nodes| < n
        invariant |nodes| <= n && Distinct(nodes) && fresh(nodes)
      {
        var node := new DbgObj();
        nodes := nodes + [node];
      }
      for i := 0 to n
        invariant |nodes| == n
        invariant forall j {:trigger nodes[j].next} :: 0 <= j < i ==> nodes[j].next == nodes[Succ(n, j)]
        invariant forall j {:trigger nodes[j].prior} :: 0 <= j < i ==> nodes[j].prior == nodes[Pred(n, j)]
      {
        nodes[i].next := nodes[if i == n - 1 then 0 else i + 1];
        nodes[i].prior := nodes[if i == 0 then n - 1 else i - 1];
      }
      head, tail := nodes[0], nodes[n - 1];
      s := nodes;
    }

    /** `bcm_object_rm_list` of the k-th node. */
    method RmList(dbgobj: DbgObj, ghost k: nat)
      requires Valid() == true && k < |s| && dbgobj == s[k]
      modifies this, s`next, s`prior
      ensures Valid() == true && s == Without(old(s), k)
    {
      StepOff(dbgobj, k);
      Bridge(dbgobj, s, k);
      WithoutDistinct(s, k);
      s := Without(s, k);
    }

    /** The head or the tail moves off the node that is going. */
    method StepOff(dbgobj: DbgObj, ghost k: nat)
      requires Valid() == true && k < |s| && dbgobj == s[k]
      modifies this`head, this`tail
      ensures head == (if |s| == 1 then null else Without(s, k)[0])
      ensures tail == (if |s| == 1 then null else Without(s, k)[|s| - 2])
      ensures Distinct(s) && Linked(s)
    {
      WithoutEnds(s, k);
      if dbgobj == head && dbgobj == tail {
        head, tail := null, null;
      } else if dbgobj == head {
        head := head.next;
      } else if dbgobj == tail {
        tail := tail.prior;
      }
    }

    /** `bcm_object_add_list` of a node that is on no list. */
    method AddList(dbgobj: DbgObj, addtotail: bool)
      requires Valid() == true && dbgobj !in s
      modifies this, dbgobj`next, dbgobj`prior, s`next, s`prior
      ensures Valid() == true && s == if addtotail then old(s) + [dbgobj] else [dbgobj] + old(s)
    {
      if head == null && tail == null {
        head, tail := dbgobj, dbgobj;
        dbgobj.next, dbgobj.prior := dbgobj, dbgobj;
        s := [dbgobj];
      } else {
        Splice(head, tail, dbgobj, s);
        AddedDistinct(s, dbgobj);
        if addtotail {
          tail := dbgobj;
          s := s + [dbgobj];
        } else {
          Rotated(s, dbgobj);
          head := dbgobj;
          s := [dbgobj] + s;
        }
      }
    }

    /** `bcm_object_movetoend`: the other nodes keep their order. */
    method MoveToEnd(dbgobj: DbgObj, movetotail: bool, ghost k: nat)
      requires Valid() == true && k < |s| && dbgobj == s[k]
      modifies this, s`next, s`prior
      ensures Valid() == true && s == if movetotail then Without(old(s), k) + [dbgobj] else [dbgobj] + Without(old(s), k)
    {
      if dbgobj != (if movetotail then tail else head) {
        WithoutDistinct(s, k);
        RmList(dbgobj, k);
        AddList(dbgobj, movetotail);
      }
    }
  }

  /** Link the neighbours of the k-th node to each other. */
  method Bridge(dbgobj: DbgObj, ghost s: seq<DbgObj>, ghost k: nat)
    requires Distinct(s) && Linked(s) && k < |s| && dbgobj == s[k]
    modifies s`next, s`prior
    ensures Linked(Without(s, k))
  {
    ghost var n, p, q := |s|, Pred(|s|, k), Succ(|s|, k);
    assert dbgobj.next == s[q] && dbgobj.prior == s[p];
    dbgobj.next.prior := dbgobj.prior;
    dbgobj.prior.next := dbgobj.next;
    ghost var t := Without(s, k);
    forall i | 0 <= i < |t| ensures t[i].next == t[Succ(|t|, i)] && t[i].prior == t[Pred(|t|, i)] {
      var i' := Back(k, i);
      WithoutPlace(n, k, i);
      WithoutAt(s, k, i);
      WithoutAt(s, k, Succ(|t|, i));
      WithoutAt(s, k, Pred(|t|, i));
      assert s[i'].next == if i' == p then s[q] else old(s[i'].next);
      assert s[i'].prior == if i' == q then s[p] else old(s[i'].prior);
    }
  }

  lemma WithoutAt(s: seq<DbgObj>, k: nat, i: nat)
    requires k < |s| && i < |s| - 1
    ensures Without(s, k)[i] == s[Back(k, i)]
  {
  }

  /** Link a node in between the tail and the head. */
  method Splice(head: DbgObj, tail: DbgObj, dbgobj: DbgObj, ghost s: seq<DbgObj>)
    requires Ring(head, tail, s) && dbgobj !in s
    modifies s`next, s`prior, dbgobj`next, dbgobj`prior
    ensures Linked(s + [dbgobj])
  {
    tail.next := dbgobj;
    head.prior := dbgobj;
    dbgobj.next, dbgobj.prior := head, tail;
    ghost var t := s + [dbgobj];
    forall i | 0 <= i < |s| ensures t[i].next == t[Succ(|t|, i)] && t[i].prior == t[Pred(|t|, i)] {
      assert s[i].next == if i == |s| - 1 then dbgobj else old(s[i].next);
      assert s[i].prior == if i == 0 then dbgobj else old(s[i].prior);
    }
  }

  /** The circle is the same wherever one starts. */
  lemma Rotated(s: seq<DbgObj>, x: DbgObj)
    requires Linked(s + [x])
    ensures Linked([x] + s)
  {
    var t, u := s + [x], [x] + s;
    forall i | 0 <= i < |u| ensures u[i].next == u[Succ(|u|, i)] && u[i].prior == u[Pred(|u|, i)] {
      InverseAt(t, if i == 0 then |s| else i - 1);
    }
  }

  lemma AddedDistinct(s: seq<DbgObj>, x: DbgObj)
    requires Distinct(s) && x !in s
    ensures Distinct(s + [x]) && Distinct([x] + s)
  {
  }

  // ---------------------------------------------------------------- the trace as a sequence of objects

  /** The last place of an object, or -1. */
  function LastIndex(a: seq<nat>, obj: nat): (k: int)
    ensures -1 <= k < |a|
    ensures k >= 0 ==> a[k] == obj
    ensures forall j :: k < j < |a| ==> a[j] != obj
  {
    if a == [] then -1
    else if a[|a| - 1] == obj then |a| - 1
    else LastIndex(a[..|a| - 1], obj)
  }

  ghost function Added(a: seq<nat>, obj: nat, room: bool): seq<nat> {
    if LastIndex(a, obj) >= 0 || !room then a else a + [obj]
  }

  ghost function Removed(a: seq<nat>, obj: nat): seq<nat> {
    if LastIndex(a, obj) < 0 then a else Without(a, LastIndex(a, obj))
  }

  /** An object goes on under another name, at the end. */
  ghost function Updated(a: seq<nat>, obj: nat, objNew: nat): seq<nat> {
    if LastIndex(a, obj) < 0 then a else Without(a, LastIndex(a, obj)) + [objNew]
  }

  ghost predicate Once(a: seq<nat>) {
    forall i, j :: 0 <= i < j < |a| ==> a[i] != a[j]
  }

  /** Adding and removing keep every object on the list at most once. */
  lemma AddRemoveOnce(a: seq<nat>, obj: nat, room: bool)
    requires Once(a)
    ensures Once(Added(a, obj, room)) && Once(Removed(a, obj))
    ensures obj !in Removed(a, obj)
    ensures forall o :: o in a && o != obj ==> o in Removed(a, obj)
  {
    var k := LastIndex(a, obj);
    if k >= 0 {
      var r := Without(a, k);
      assert forall i :: 0 <= i < |r| ==> r[i] == a[if i < k then i else i + 1];
      forall o | o in a && o != obj ensures o in r {
        StillIn(a, k, o);
      }
    }
  }

  /** After adding, the objects are those before, in their order, with the new one behind them unless it was there or no node was free. */
  lemma AddedBehind(a: seq<nat>, obj: nat, room: bool)
    ensures var b := Added(a, obj, room);
      && a <= b && |b| <= |a| + 1 && (obj in b <==> obj in a || room)
      && (|b| > |a| ==> b[|a|] == obj && obj !in a)
  {
    if obj in a {
      assert LastIndex(a, obj) >= 0;
    } else if room {
      assert Added(a, obj, room)[|a|] == obj;
    }
  }

  /** After removing, the last of the object is gone and the others keep their order. */
  lemma RemovedLast(a: seq<nat>, obj: nat)
    ensures obj !in a ==> Removed(a, obj) == a
    ensures obj in a ==> exists k :: 0 <= k < |a| && a[k] == obj && (forall j :: k < j < |a| ==> a[j] != obj)
                                     && Removed(a, obj) == a[..k] + a[k + 1..]
  {
    var k := LastIndex(a, obj);
    if obj in a {
      assert a[k] == obj && Removed(a, obj) == a[..k] + a[k + 1..];
    }
  }

  /** After renaming, the object is behind the others, which keep their order. */
  lemma UpdatedBehind(a: seq<nat>, obj: nat, objNew: nat)
    ensures var b := Updated(a, obj, objNew);
      if obj in a then |b| == |a| && b[|b| - 1] == objNew && b[..|b| - 1] == Removed(a, obj) else b == a
  {
    var k := LastIndex(a, obj);
    if obj in a {
      assert a[k] == obj;
    }
  }

  /** Removing an object just added leaves the list as it was. */
  lemma RemoveUndoesAdd(a: seq<nat>, obj: nat)
    requires obj !in a
    ensures Removed(Added(a, obj, true), obj) == a
  {
    var b := a + [obj];
    assert LastIndex(b, obj) == |a|;
    assert Without(b, |a|) == a;
  }

  /** Renaming keeps objects distinct exactly when the new name is not that of another one on the list. */
  lemma UpdateOnce(a: seq<nat>, obj: nat, objNew: nat)
    requires Once(a) && obj in a
    ensures Once(Updated(a, obj, objNew)) <==> objNew == obj || objNew !in a
  {
    var k := LastIndex(a, obj);
    var r := Without(a, k);
    var u := r + [objNew];
    assert forall i :: 0 <= i < |r| ==> r[i] == a[if i < k then i else i + 1] && u[i] == r[i];
    if objNew in a && objNew != obj {
      StillIn(a, k, objNew);
      var i :| 0 <= i < |r| && r[i] == objNew;
      assert u[i] == u[|r|];
    } else {
      assert forall i :: 0 <= i < |r| ==> u[i] != objNew;
    }
  }

  // ---------------------------------------------------------------- the trace

  ghost function Elements(s: seq<DbgObj>): set<DbgObj> {
    set n | n in s
  }

  ghost predicate Apart(f: seq<DbgObj>, s: seq<DbgObj>) {
    forall i, j :: 0 <= i < |f| && 0 <= j < |s| ==> f[i] != s[j]
  }

  /** Two sequences share out the pool. */
  ghost predicate Shared(f: seq<DbgObj>, s: seq<DbgObj>, pool: set<DbgObj>) {
    && Distinct(f) && Distinct(s) && Apart(f, s)
    && Elements(f) + Elements(s) == pool
  }

  /** Moving a node from one sequence to the end of the other. */
  lemma Moved(f: seq<DbgObj>, s: seq<DbgObj>, pool: set<DbgObj>, k: nat)
    requires Shared(f, s, pool) && k < |f|
    ensures Shared(Without(f, k), s + [f[k]], pool)
  {
    var g, u := Without(f, k), s + [f[k]];
    WithoutDistinct(f, k);
    AddedDistinct(s, f[k]);
    assert forall i :: 0 <= i < |g| ==> g[i] == f[Back(k, i)];
    forall n | n in pool ensures n in Elements(g) + Elements(u) {
      if n in f && n != f[k] {
        StillIn(f, k, n);
      } else if n in s {
        assert n in u;
      } else {
        assert u[|s|] == f[k];
      }
    }
  }

  lemma SharedSwap(f: seq<DbgObj>, s: seq<DbgObj>, pool: set<DbgObj>)
    requires Shared(f, s, pool)
    ensures Shared(s, f, pool)
  {
  }

  /** Moving a node to the end of its own sequence. */
  lemma MovedToEnd(f: seq<DbgObj>, s: seq<DbgObj>, pool: set<DbgObj>, k: nat)
    requires Shared(f, s, pool) && k < |s|
    ensures Shared(f, Without(s, k) + [s[k]], pool)
  {
    var u := Without(s, k) + [s[k]];
    WithoutDistinct(s, k);
    AddedDistinct(Without(s, k), s[k]);
    assert forall i :: 0 <= i < |s| - 1 ==> u[i] == s[Back(k, i)];
    assert u[|s| - 1] == s[k];
    forall n | n in s ensures n in u {
      if n != s[k] {
        StillIn(s, k, n);
      }
    }
  }

  /** The nodes stand for these objects. */
  ghost predicate Named(s: seq<DbgObj>, a: seq<nat>)
    reads s
  {
    |a| == |s| && forall i :: 0 <= i < |s| ==> s[i].obj == a[i]
  }

  lemma NamedWithout(s: seq<DbgObj>, a: seq<nat>, k: nat)
    requires |a| == |s| && k < |s| && forall i :: 0 <= i < |s| && i != k ==> s[i].obj == a[i]
    ensures Named(Without(s, k), Without(a, k))
  {
    assert forall i :: 0 <= i < |s| - 1 ==> Without(s, k)[i] == s[Back(k, i)] && Without(a, k)[i] == a[Back(k, i)];
  }

  /** Take the k-th node off one list and put it at the end of the other. */
  method Transfer(from: DbgList, to: DbgList, dbgobj: DbgObj, ghost k: nat)
    requires from != to && from.Valid() == true && to.Valid() == true && Apart(from.s, to.s) && Distinct(from.s)
    requires k < |from.s| && dbgobj == from.s[k]
    modifies from, to, from.s`next, from.s`prior, to.s`next, to.s`prior
    ensures from.Valid() == true && to.Valid() == true
    ensures from.s == Without(old(from.s), k) && to.s == old(to.s) + [dbgobj]
  {
    RestApart(from.s, to.s, k);
    from.RmList(dbgobj, k);
    assert to.Valid() by {
      assert Linked(to.s) by {
        assert old(Linked(to.s));
      }
    }
    label L:
    to.AddList(dbgobj, true);
    assert from.Valid() by {
      assert Linked(from.s) by {
        assert old@L(Linked(from.s));
      }
    }
  }

  lemma RestApart(f: seq<DbgObj>, s: seq<DbgObj>, k: nat)
    requires Distinct(f) && Apart(f, s) && k < |f|
    ensures f[k] !in s && f[k] !in Without(f, k)
    ensures forall i :: 0 <= i < |f| - 1 ==> Without(f, k)[i] !in s
    ensures forall j :: 0 <= j < |s| ==> s[j] !in f
  {
    assert forall i :: 0 <= i < |f| - 1 ==> Without(f, k)[i] == f[Back(k, i)];
    WithoutDistinct(f, k);
  }

  class ObjectTrace {
    const freelist: DbgList
    const objlist: DbgList
    var count: int
    ghost const pool: set<DbgObj>

    ghost var active: seq<nat>   // the traced objects, oldest first

    ghost predicate Valid()
      reads this, freelist, objlist, freelist.s, objlist.s
    {
      && freelist != objlist && freelist.Valid() == true && objlist.Valid() == true
      && Shared(freelist.s, objlist.s, pool) && Named(objlist.s, active) == true
      && count == |active|
    }

    /** `bcm_object_trace_init`. */
    constructor (n: nat)
      requires n > 0
      ensures Valid() && active == [] && |freelist.s| == n
    {
      var all := new DbgList.Pool(n);
      freelist := all;
      objlist := new DbgList();
      count, active := 0, [];
      pool := Elements(all.s);
    }

    /** `bcm_object_trace_deinit` asserts that nothing is traced any more. */
    method AllReleased() returns (ok: bool)
      requires Valid()
      ensures ok <==> active == []
      ensures ok <==> count == 0
    {
      ok := objlist.head == null && objlist.tail == null;
    }

    /** The search of all operations: from the tail along prior until back at the tail. */
    method Find(obj: nat) returns (dbgobj: DbgObj?, ghost k: int)
      requires Valid()
      ensures k == LastIndex(active, obj) && dbgobj == if k >= 0 then objlist.s[k] else null
    {
      ghost var s, a := objlist.s, active;
      dbgobj, k := objlist.tail, |s| - 1;
      while dbgobj != null
        invariant -1 <= k < |s| && dbgobj == (if k >= 0 then s[k] else null)
        invariant forall j :: k < j < |a| ==> a[j] != obj
        decreases k
      {
        assert a[k] == dbgobj.obj;
        if dbgobj.obj == obj {
          return;
        }
        assert dbgobj.prior == s[Pred(|s|, k)];
        dbgobj := dbgobj.prior;
        k := k - 1;
        if dbgobj == objlist.tail {
          return null, -1;
        }
      }
    }

    /** `bcm_object_trace_opr` with ADD: nothing happens to an object traced already, or without a free node. */
    method Add(obj: nat)
      requires Valid()
      modifies this`count, this`active, freelist, objlist, freelist.s, objlist.s
      ensures Valid() == true && active == Added(old(active), obj, old(freelist.s) != [])
    {
      var dbgobj;
      ghost var k;
      dbgobj, k := Find(obj);
      if dbgobj != null {
        return;
      }
      dbgobj := freelist.head;
      if dbgobj == null {
        return;
      }
      Moved(freelist.s, objlist.s, pool, 0);
      dbgobj.obj := obj;
      Transfer(freelist, objlist, dbgobj, 0);
      active := active + [obj];
      count := count + 1;
    }

    /** `bcm_object_trace_opr` with REMOVE: nothing happens to an object that is not traced. */
    method Remove(obj: nat)
      requires Valid()
      modifies this`count, this`active, freelist, objlist, freelist.s, objlist.s
      ensures Valid() == true && active == Removed(old(active), obj)
    {
      var dbgobj;
      ghost var k;
      dbgobj, k := Find(obj);
      if dbgobj == null {
        return;
      }
      SharedSwap(freelist.s, objlist.s, pool);
      Moved(objlist.s, freelist.s, pool, k);
      ghost var s := objlist.s;
      Transfer(objlist, freelist, dbgobj, k);
      SharedSwap(objlist.s, freelist.s, pool);
      NamedWithout(s, active, k);
      active := Without(active, k);
      count := count - 1;
    }

    /** `bcm_object_trace_upd`. */
    method Update(obj: nat, objNew: nat)
      requires Valid()
      modifies this`active, objlist, objlist.s
      ensures Valid() == true && active == Updated(old(active), obj, objNew)
    {
      var dbgobj;
      ghost var k;
      dbgobj, k := Find(obj);
      if dbgobj == null {
        return;
      }
      MovedToEnd(freelist.s, objlist.s, pool, k);
      ghost var s := objlist.s;
      dbgobj.obj := objNew;
      objlist.MoveToEnd(dbgobj, true, k);
      NamedWithout(s, active, k);
      active := Without(active, k) + [objNew];
    }
  }
}
