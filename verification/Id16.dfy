/** The 16-bit id allocator: a stack of ids in an array (bcmutils.c). */
module Id16 {

  const ID16_INVALID: nat := 0xFFFF

  ghost predicate Within(v: nat, start: nat, total: nat) {
    start <= v < start + total
  }

  /** All ids an allocator manages. */
  ghost function Range(start: nat, total: nat): set<nat> {
    set v: nat | v < start + total && Within(v, start, total)
  }

  lemma {:induction false} RangeSize(start: nat, total: nat)
    ensures |Range(start, total)| == total
  {
    if total == 0 {
      assert Range(start, 0) == {};
    } else {
      RangeSize(start, total - 1);
      assert Range(start, total) == Range(start, total - 1) + {start + total - 1};
    }
  }

  ghost function Elements(s: seq<nat>): set<nat> {
    set v | v in s
  }

  ghost predicate NoDup(s: seq<nat>) {
    forall i, j :: 0 <= i < j < |s| ==> s[i] != s[j]
  }

  lemma {:induction false} NoDupSize(s: seq<nat>)
    requires NoDup(s)
    ensures |Elements(s)| == |s|
  {
    if s == [] {
      assert Elements(s) == {};
    } else {
      var t, x := s[..|s| - 1], s[|s| - 1];
      NoDupSize(t);
      assert s == t + [x];
      assert Elements(s) == Elements(t) + {x};
    }
  }

  lemma Push(s: seq<nat>, x: nat)
    ensures Elements(s + [x]) == Elements(s) + {x}
    ensures NoDup(s) && x !in s ==> NoDup(s + [x])
    ensures NoDup(s + [x]) ==> NoDup(s) && x !in Elements(s)
  {
    assert forall v :: v in s + [x] <==> v in s || v == x;
    if NoDup(s + [x]) {
      forall j | 0 <= j < |s| ensures s[j] != x {
        assert (s + [x])[j] != (s + [x])[|s|];
      }
      forall i, j | 0 <= i < j < |s| ensures s[i] != s[j] {
        assert (s + [x])[i] == s[i] && (s + [x])[j] == s[j];
      }
    }
  }

  /** A stack of distinct ids of the range that misses one of them is not full. */
  lemma StackRoom(s: seq<nat>, start: nat, total: nat, v: nat)
    requires NoDup(s) && Elements(s) <= Range(start, total)
    requires v in Range(start, total) && v !in s
    ensures |s| < total
  {
    NoDupSize(s);
    RangeSize(start, total);
    var rest := Range(start, total) - {v};
    assert Elements(s) <= rest;
    SubsetSize(Elements(s), rest);
  }

  lemma {:induction false} SubsetSize(a: set<nat>, b: set<nat>)
    requires a <= b
    ensures |a| <= |b|
    decreases a
  {
    if a != {} {
      var x :| x in a;
      SubsetSize(a - {x}, b - {x});
    }
  }

  class Id16Map {
    const total: nat
    const start: nat
    const stack: array<nat>
    var stackIdx: int
    var failures: nat

    ghost function Stack(): seq<nat>
      requires -1 <= stackIdx < stack.Length
      reads this, stack
    {
      stack[..stackIdx + 1]
    }

    ghost predicate Valid()
      reads this, stack
    {
      && stack.Length == total && -1 <= stackIdx < total
      && start + total < ID16_INVALID
      && NoDup(Stack()) && Elements(Stack()) <= Range(start, total)
    }

    /** The ids that are not in use. */
    ghost function Free(): set<nat>
      requires Valid()
      reads this, stack
    {
      Elements(Stack())
    }

    /** `id16_map_init`. */
    constructor (totalIds: nat, startVal16: nat)
      requires totalIds > 0 && startVal16 + totalIds < ID16_INVALID
      ensures Valid() && fresh(stack) && total == totalIds && start == startVal16
      ensures Free() == Range(start, total)
    {
      total, start := totalIds, startVal16;
      stack := new nat[totalIds](i => 0);
      stackIdx, failures := -1, 0;
      new;
      for idx := 0 to totalIds
        invariant stackIdx == idx - 1
        invariant forall j :: 0 <= j < idx ==> stack[j] == start + j
      {
        stackIdx := idx;
        stack[stackIdx] := start + idx;
      }
      assert forall v :: v in Range(start, total) ==> Stack()[v - start] == v;
    }

    /** `id16_map_alloc`: ID16_INVALID exactly when no id is free. */
    method Alloc() returns (val16: nat)
      requires Valid()
      modifies this`stackIdx, this`failures
      ensures Valid()
      ensures if old(Free()) == {} then val16 == ID16_INVALID && Free() == {} && failures == old(failures) + 1
              else val16 in old(Free()) && Free() == old(Free()) - {val16} && val16 < ID16_INVALID && failures == old(failures)
    {
      if stackIdx < 0 {
        failures := failures + 1;
        return ID16_INVALID;
      }
      val16 := stack[stackIdx];
      assert Stack() == stack[..stackIdx] + [val16];
      Push(stack[..stackIdx], val16);
      stackIdx := stackIdx - 1;
    }

    /** `id16_map_free`: there is always room for an id that is in use. */
    method FreeId(val16: nat)
      requires Valid() && val16 in Range(start, total) && val16 !in Free()
      modifies this`stackIdx, stack
      ensures Valid() && Free() == old(Free()) + {val16}
    {
      StackRoom(Stack(), start, total, val16);
      Push(Stack(), val16);
      ghost var s := Stack();
      stackIdx := stackIdx + 1;
      stack[stackIdx] := val16;
      assert Stack() == s + [val16];
    }
  }
}
