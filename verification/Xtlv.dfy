/**
  Records of a 16-bit id, a 16-bit length and a body, little-endian, on request padded to
  multiples of four bytes (bcmxtlv.c). What is in the padding is nobody's business.
 */
module Xtlv {
  import opened Octets

  const HDR: nat := 4
  const OK: int := 0
  const BADARG: int := -2
  const BUFTOOSHORT: int := -14
  const BADLEN: int := -24
  const NOMEM: int := -27

  type Word = x: nat | x < 0x1_0000

  datatype Rec = Rec(id: Word, body: seq<Byte>) {
    ghost predicate Ok() {
      |body| < 0x1_0000
    }
  }

  ghost predicate AllOk(rs: seq<Rec>) {
    forall i :: 0 <= i < |rs| ==> rs[i].Ok()
  }

  /** `bcm_xtlv_size_for_data`. */
  function Size(dlen: nat, align: bool): (n: nat)
    ensures HDR + dlen <= n <= HDR + dlen + 3 && (align ==> n % 4 == 0) && (!align ==> n == HDR + dlen)
  {
    if align then (dlen + HDR + 3) / 4 * 4 else dlen + HDR
  }

  function Total(rs: seq<Rec>, align: bool): nat {
    if rs == [] then 0 else Size(|rs[0].body|, align) + Total(rs[1..], align)
  }

  function Le16(b: seq<Byte>, at: nat): Word
    requires at + 2 <= |b|
  {
    var lo: nat, hi: nat := b[at], b[at + 1];
    hi * 256 + lo
  }

  // ---------------------------------------------------------------- what is in a buffer

  /** A record lies at a place of a buffer. */
  ghost predicate RecAt(b: seq<Byte>, at: nat, r: Rec, align: bool) {
    && r.Ok() && at + Size(|r.body|, align) <= |b|
    && Le16(b, at) == r.id && Le16(b, at + 2) == |r.body|
    && b[at + HDR..at + HDR + |r.body|] == r.body
  }

  /** Id and length are there low byte first. */
  lemma HeaderBytes(b: seq<Byte>, at: nat, r: Rec, align: bool)
    requires RecAt(b, at, r, align)
    ensures b[at] == r.id % 256 && b[at + 1] == r.id / 256
    ensures b[at + 2] == |r.body| % 256 && b[at + 3] == |r.body| / 256
  {
  }

  /** From a place on, a buffer holds exactly some records. */
  ghost predicate Holds(b: seq<Byte>, at: nat, rs: seq<Rec>, align: bool)
    decreases |rs|
  {
    if rs == [] then at == |b|
    else RecAt(b, at, rs[0], align) && Holds(b, at + Size(|rs[0].body|, align), rs[1..], align)
  }

  /** The records a walk meets: it stops at the first that is cut off. */
  function Records(b: seq<Byte>, at: nat, n: int, align: bool): (rs: seq<Rec>)
    requires at + n <= |b|
    ensures AllOk(rs)
    decreases n
  {
    if n < HDR then []
    else
      var len: nat := Le16(b, at + 2);
      if n < Size(len, align) then []
      else [Rec(Le16(b, at), b[at + HDR..at + HDR + len])] + Records(b, at + Size(len, align), n - Size(len, align), align)
  }

  lemma {:induction false} HoldsRecords(b: seq<Byte>, at: nat, rs: seq<Rec>, align: bool)
    requires Holds(b, at, rs, align)
    ensures at + Total(rs, align) == |b| && Records(b, at, |b| - at, align) == rs
    decreases |rs|
  {
    if rs != [] {
      HoldsRecords(b, at + Size(|rs[0].body|, align), rs[1..], align);
      assert rs == [rs[0]] + rs[1..];
    }
  }

  /** A record behind the others. */
  lemma {:induction false} HoldsSnoc(b: seq<Byte>, b': seq<Byte>, at: nat, rs: seq<Rec>, r: Rec, align: bool)
    requires Holds(b, at, rs, align) && b <= b' && RecAt(b', |b|, r, align) && |b'| == |b| + Size(|r.body|, align)
    ensures Holds(b', at, rs + [r], align)
    decreases |rs|
  {
    if rs == [] {
      assert [r][1..] == [];
    } else {
      KeepsRec(b, b', at, rs[0], align);
      HoldsSnoc(b, b', at + Size(|rs[0].body|, align), rs[1..], r, align);
      assert (rs + [r])[1..] == rs[1..] + [r];
    }
  }

  lemma KeepsRec(b: seq<Byte>, b': seq<Byte>, at: nat, r: Rec, align: bool)
    requires RecAt(b, at, r, align) && b <= b'
    ensures RecAt(b', at, r, align)
  {
    var l := HDR + |r.body|;
    assert forall i :: at <= i < at + l ==> b'[i] == b[i];
    assert b'[at + HDR..at + l] == b[at + HDR..at + l];
  }

  // ---------------------------------------------------------------- packing

  /** Store a record at a place; the padding is left alone. */
  method Store(buf: array<Byte>, at: nat, id: Word, body: seq<Byte>, align: bool)
    requires |body| < 0x1_0000 && at + Size(|body|, align) <= buf.Length
    modifies buf
    ensures RecAt(buf[..at + Size(|body|, align)], at, Rec(id, body), align)
    ensures forall i :: 0 <= i < buf.Length && !(at <= i < at + HDR + |body|) ==> buf[i] == old(buf[i])
  {
    buf[at], buf[at + 1] := id % 256, id / 256;
    buf[at + 2], buf[at + 3] := |body| % 256, |body| / 256;
    for i := 0 to |body|
      invariant buf[at] == id % 256 && buf[at + 1] == id / 256
      invariant buf[at + 2] == |body| % 256 && buf[at + 3] == |body| / 256
      invariant forall j :: 0 <= j < i ==> buf[at + HDR + j] == body[j]
      invariant forall j :: 0 <= j < buf.Length && !(at <= j < at + HDR + i) ==> buf[j] == old(buf[j])
    {
      buf[at + HDR + i] := body[i];
    }
    ghost var b := buf[..at + Size(|body|, align)];
    assert forall j :: 0 <= j < |body| ==> b[at + HDR + j] == body[j];
    SliceIs(b, at + HDR, body);
  }

  lemma SliceIs(b: seq<Byte>, at: nat, body: seq<Byte>)
    requires at + |body| <= |b| && forall j :: 0 <= j < |body| ==> b[at + j] == body[j]
    ensures b[at..at + |body|] == body
  {
  }

  /** Store a record behind others. */
  method StoreBehind(buf: array<Byte>, at: nat, id: Word, body: seq<Byte>, align: bool, ghost rs: seq<Rec>)
    requires |body| < 0x1_0000 && at + Size(|body|, align) <= buf.Length && Holds(buf[..at], 0, rs, align) == true
    modifies buf
    ensures Holds(buf[..at + Size(|body|, align)], 0, rs + [Rec(id, body)], align) == true
    ensures forall i :: 0 <= i < buf.Length && !(at <= i < at + Size(|body|, align)) ==> buf[i] == old(buf[i])
  {
    ghost var b := buf[..at];
    Store(buf, at, id, body, align);
    assert b <= buf[..at + Size(|body|, align)];
    HoldsSnoc(b, buf[..at + Size(|body|, align)], 0, rs, Rec(id, body), align);
  }

  /** `bcm_pack_xtlv_entry` behind what a buffer holds already. */
  method PackEntry(buf: array<Byte>, at: nat, buflen: nat, id: Word, src: seq<Byte>, align: bool, ghost rs: seq<Rec>)
    returns (res: int, at': nat, buflen': nat)
    requires |src| < 0x1_0000 && at + buflen <= buf.Length && Holds(buf[..at], 0, rs, align) == true
    modifies buf
    ensures res == OK <==> Size(|src|, align) <= buflen
    ensures res == OK ==> at' == at + Size(|src|, align) <= buf.Length && buflen' == buflen - Size(|src|, align)
    ensures res == OK ==> Holds(buf[..at'], 0, rs + [Rec(id, src)], align) == true
    ensures res != OK ==> res == BADLEN && at' == at && buflen' == buflen && buf[..] == old(buf[..])
    ensures forall i :: at' <= i < buf.Length ==> buf[i] == old(buf[i])
  {
    var size := Size(|src|, align);
    if size > buflen {
      return BADLEN, at, buflen;
    }
    StoreBehind(buf, at, id, src, align, rs);
    res, at', buflen' := OK, at + size, buflen - size;
  }

  /** How many of some records fit into a buffer. */
  function Fit(rs: seq<Rec>, room: int, align: bool): (n: nat)
    ensures n <= |rs|
  {
    if rs == [] || Size(|rs[0].body|, align) > room then 0
    else 1 + Fit(rs[1..], room - Size(|rs[0].body|, align), align)
  }

  /** They are the longest prefix that does not exceed it. */
  lemma {:induction false} FitIs(rs: seq<Rec>, room: nat, align: bool)
    ensures Total(rs[..Fit(rs, room, align)], align) <= room
    ensures Fit(rs, room, align) < |rs| ==> Total(rs[..Fit(rs, room, align) + 1], align) > room
    decreases |rs|
  {
    if rs != [] && Size(|rs[0].body|, align) <= room {
      FitIs(rs[1..], room - Size(|rs[0].body|, align), align);
      TakeNext(rs, Fit(rs, room, align));
      if Fit(rs, room, align) < |rs| {
        TakeNext(rs, Fit(rs, room, align) + 1);
      }
    } else if rs != [] {
      TakeNext(rs, 1);
    }
  }

  lemma TakeNext(rs: seq<Rec>, n: nat)
    requires 0 < n <= |rs|
    ensures rs[..n][0] == rs[0] && rs[..n][1..] == rs[1..][..n - 1]
  {
  }

  /** Where a list of descriptors ends: before the first of type 0. */
  function ListEnd(items: seq<Rec>): (e: nat)
    ensures e <= |items| && (e < |items| ==> items[e].id == 0)
    ensures forall j :: 0 <= j < e ==> items[j].id != 0
  {
    if items == [] || items[0].id == 0 then 0 else 1 + ListEnd(items[1..])
  }

  /**
    `bcm_pack_xtlv_buf_from_mem`. A failure is reported as 1, because the comparison binds closer
    than the assignment.
   */
  method PackFromMem(buf: array<Byte>, buflen: nat, items: seq<Rec>, align: bool) returns (res: int, end: nat, left: nat)
    requires AllOk(items) && buflen <= buf.Length
    modifies buf
    ensures var list := items[..ListEnd(items)];
      && end + left == buflen && Holds(buf[..end], 0, list[..Fit(list, buflen, align)], align) == true
      && res == if Fit(list, buflen, align) == |list| then OK else 1
    ensures forall i :: end <= i < buf.Length ==> buf[i] == old(buf[i])
  {
    res, end, left := OK, 0, buflen;
    ghost var list := items[..ListEnd(items)];
    ghost var fit := Fit(list, buflen, align);
    assert list[0..] == list && list[..0] == [] && list[..|list|] == list;
    var k := 0;
    while k < |items| && items[k].id != 0
      invariant k <= |list| && end + left == buflen && res == OK && Holds(buf[..end], 0, list[..k], align) == true
      invariant fit == k + Fit(list[k..], left, align)
      invariant forall i :: end <= i < buf.Length ==> buf[i] == old(buf[i])
    {
      var ret;
      FitNext(list, k, items[k], left, align);
      ret, end, left := PackEntry(buf, end, left, items[k].id, items[k].body, align, list[..k]);
      res := if ret != OK then 1 else OK;
      if res != OK {
        return;
      }
      assert fit == k + 1 + Fit(list[k + 1..], left, align);
      k := k + 1;
    }
  }

  lemma FitNext(items: seq<Rec>, k: nat, r: Rec, left: int, align: bool)
    requires k < |items| && items[k] == r
    ensures var size := Size(|r.body|, align);
      Fit(items[k..], left, align) == if size > left then 0 else 1 + Fit(items[k + 1..], left - size, align)
    ensures items[..k + 1] == items[..k] + [Rec(r.id, r.body)]
  {
    assert items[k..][1..] == items[k + 1..];
  }

  // ---------------------------------------------------------------- unpacking

  /** The first descriptor of a type, or where the list ends: at a descriptor of type 0 at the latest. */
  function Slot(types: seq<Word>, id: Word): (k: nat)
    ensures k <= |types|
    ensures k < |types| ==> types[k] in {0, id}
    ensures forall j :: 0 <= j < k ==> types[j] !in {0, id}
  {
    if types == [] || types[0] == 0 || types[0] == id then 0 else 1 + Slot(types[1..], id)
  }

  /** `bcm_valid_xtlv`; without a whole header the length read does not matter. */
  predicate Valid(b: seq<Byte>, at: nat, n: int, align: bool)
    requires at + n <= |b|
  {
    n >= HDR && n >= Size(Le16(b, at + 2), align)
  }

  /** What the loop of `bcm_unpack_xtlv_buf_to_mem` makes of the records. */
  function Delivered(rs: seq<Rec>, types: seq<Word>, mem: seq<seq<Byte>>): (r: (int, seq<seq<Byte>>))
    requires |mem| == |types|
    ensures |r.1| == |mem|
  {
    if rs == [] then (OK, mem)
    else
      var d := Deliver(types, mem, rs[0].id, rs[0].body);
      if d.0 == OK then Delivered(rs[1..], types, d.1) else d
  }

  /**
    `bcm_unpack_xtlv_buf_to_mem`: mem[k] is the memory of the k-th descriptor and has the length it
    names. Bytes that are left over when all is well make the result BUFTOOSHORT.
   */
  method UnpackToMem(b: seq<Byte>, buflen: nat, types: seq<Word>, mem: array<seq<Byte>>, align: bool) returns (res: int, left: int)
    requires buflen <= |b| && mem.Length == |types|
    modifies mem
    ensures if Records(b, 0, buflen, align) == [] then res == BADARG && mem[..] == old(mem[..])
            else var d := Delivered(Records(b, 0, buflen, align), types, old(mem[..]));
              && mem[..] == d.1
              && (d.0 != OK ==> res == d.0)
              && (d.0 == OK ==> left == buflen - Total(Records(b, 0, buflen, align), align) && res == if left == 0 then OK else BUFTOOSHORT)
  {
    res, left := OK, buflen;
    RecordsNone(b, 0, left, align);
    if !Valid(b, 0, left, align) {
      return BADARG, left;
    }
    ghost var rest := Records(b, 0, buflen, align);
    ghost var all := Delivered(rest, types, mem[..]);
    RecordsFirst(b, 0, left, align, rest);
    ghost var sum := Total(rest, align);
    var at, more := 0, true;
    while more && res == OK
      invariant left - Total(rest, align) == buflen - sum
      invariant at + left == buflen && more == Valid(b, at, left, align)
      invariant rest == Records(b, at, left, align) && Underway(rest, types, res, mem[..], all)
      decreases left, res == OK
    {
      RecordsFirst(b, at, left, align, rest);
      res, at, left := UnpackOne(b, at, left, types, mem, align, rest, all);
      rest := rest[1..];
      more := Valid(b, at, left, align);
    }
    RecordsNone(b, at, left, align);
    if res == OK && left != 0 {
      res := BUFTOOSHORT;
    }
  }

  /** One turn of the loop. */
  method UnpackOne(b: seq<Byte>, at: nat, left: int, types: seq<Word>, mem: array<seq<Byte>>, align: bool,
                   ghost rest: seq<Rec>, ghost all: (int, seq<seq<Byte>>)) returns (res: int, at': nat, left': int)
    requires at + left <= |b| && Valid(b, at, left, align) && mem.Length == |types|
    requires rest != [] && rest[0] == Rec(Le16(b, at), b[at + HDR..at + HDR + Le16(b, at + 2)])
    requires rest[1..] == Records(b, at + Size(Le16(b, at + 2), align), left - Size(Le16(b, at + 2), align), align)
    requires Underway(rest, types, OK, mem[..], all)
    modifies mem
    ensures at' + left' == at + left && left' == left - Size(|rest[0].body|, align) && rest[1..] == Records(b, at', left', align)
    ensures Underway(rest[1..], types, res, mem[..], all)
  {
    var len := Le16(b, at + 2);
    ghost var was := mem[..];
    res := DeliverOne(types, mem, Le16(b, at), b[at + HDR..at + HDR + len]);
    DeliverNext(rest, types, was, res, mem[..], all);
    at', left' := at + Size(len, align), left - Size(len, align);
  }

  lemma RecordsFirst(b: seq<Byte>, at: nat, n: int, align: bool, rest: seq<Rec>)
    requires at + n <= |b| && Valid(b, at, n, align) && rest == Records(b, at, n, align)
    ensures rest != [] && rest[0] == Rec(Le16(b, at), b[at + HDR..at + HDR + Le16(b, at + 2)])
    ensures rest[1..] == Records(b, at + Size(Le16(b, at + 2), align), n - Size(Le16(b, at + 2), align), align)
  {
    var len := Le16(b, at + 2);
    var r, tail := Rec(Le16(b, at), b[at + HDR..at + HDR + len]), Records(b, at + Size(len, align), n - Size(len, align), align);
    assert rest == [r] + tail;
    assert ([r] + tail)[1..] == tail;
  }

  /** Some records lie one after another from a place, and behind them there is no whole one. */
  ghost predicate AllWhole(b: seq<Byte>, at: nat, n: nat, rs: seq<Rec>, align: bool)
    requires at + n <= |b|
  {
    var t := Total(rs, align);
    t <= n && Holds(b[..at + t], at, rs, align) && !Valid(b, at + t, n - t, align)
  }

  /** Whatever the bytes, these are the records met. */
  lemma {:induction false} RecordsAre(b: seq<Byte>, at: nat, n: nat, align: bool)
    requires at + n <= |b|
    ensures AllWhole(b, at, n, Records(b, at, n, align), align) == true
    decreases n
  {
    if Valid(b, at, n, align) {
      var size := Size(Le16(b, at + 2), align);
      RecordsAre(b, at + size, n - size, align);
      WholeStep(b, at, n, size, Records(b, at, n, align), Records(b, at + size, n - size, align), align);
    } else {
      RecordsNone(b, at, n, align);
    }
  }

  lemma WholeStep(b: seq<Byte>, at: nat, n: nat, size: nat, rs: seq<Rec>, rest: seq<Rec>, align: bool)
    requires at + n <= |b| && Valid(b, at, n, align) && size == Size(Le16(b, at + 2), align)
    requires rs == Records(b, at, n, align) && rest == Records(b, at + size, n - size, align)
    requires AllWhole(b, at + size, n - size, rest, align) == true
    ensures AllWhole(b, at, n, rs, align) == true
  {
    RecordsFirst(b, at, n, align, rs);
    WholeNext(b, at, n, size, rs, rest, align);
  }

  lemma WholeNext(b: seq<Byte>, at: nat, n: nat, size: nat, rs: seq<Rec>, rest: seq<Rec>, align: bool)
    requires at + n <= |b| && Valid(b, at, n, align) && size == Size(Le16(b, at + 2), align)
    requires rs != [] && rs[0] == Rec(Le16(b, at), b[at + HDR..at + HDR + Le16(b, at + 2)]) && rs[1..] == rest
    requires AllWhole(b, at + size, n - size, rest, align) == true
    ensures AllWhole(b, at, n, rs, align) == true
  {
    var end := at + Total(rs, align);
    assert b[..end][at + HDR..at + HDR + Le16(b, at + 2)] == b[at + HDR..at + HDR + Le16(b, at + 2)];
    assert RecAt(b[..end], at, rs[0], align);
  }

  lemma RecordsNone(b: seq<Byte>, at: nat, n: int, align: bool)
    requires at + n <= |b|
    ensures !Valid(b, at, n, align) ==> Records(b, at, n, align) == []
  {
  }

  /** What is known between two records: the outcome `all` is what will be made of the rest. */
  ghost predicate Underway(rest: seq<Rec>, types: seq<Word>, res: int, mem: seq<seq<Byte>>, all: (int, seq<seq<Byte>>))
    requires |mem| == |types|
  {
    if res == OK then all == Delivered(rest, types, mem) else res == BADLEN && all == (res, mem)
  }

  lemma DeliverNext(rest: seq<Rec>, types: seq<Word>, was: seq<seq<Byte>>, res: int, mem: seq<seq<Byte>>, all: (int, seq<seq<Byte>>))
    requires |was| == |mem| == |types| && rest != [] && Underway(rest, types, OK, was, all)
    requires (res, mem) == Deliver(types, was, rest[0].id, rest[0].body)
    ensures Underway(rest[1..], types, res, mem, all)
  {
  }

  /** The search for the descriptor of one record. */
  method DeliverOne(types: seq<Word>, mem: array<seq<Byte>>, id: Word, body: seq<Byte>) returns (res: int)
    requires mem.Length == |types|
    modifies mem
    ensures (res, mem[..]) == Deliver(types, old(mem[..]), id, body)
  {
    res := OK;
    var k := Find(types, id);
    if k < |types| && types[k] != 0 {
      if |body| != |mem[k]| {
        res := BADLEN;
      } else {
        ghost var was := mem[..];
        mem[k] := body;
        assert mem[..] == was[k := body];
      }
    }
  }

  /** One record goes to the first descriptor of its type, if there is one, and must have its length. */
  function Deliver(types: seq<Word>, mem: seq<seq<Byte>>, id: Word, body: seq<Byte>): (r: (int, seq<seq<Byte>>))
    requires |mem| == |types|
    ensures |r.1| == |mem| && r.0 in {OK, BADLEN}
  {
    var k := Slot(types, id);
    if k == |types| || types[k] == 0 then (OK, mem)
    else if |body| != |mem[k]| then (BADLEN, mem)
    else (OK, mem[k := body])
  }

  /** A record has no descriptor, or one of its length. */
  ghost predicate Suits(r: Rec, types: seq<Word>, mem: seq<seq<Byte>>)
    requires |mem| == |types|
  {
    var k := Slot(types, r.id);
    k == |types| || types[k] == 0 || |r.body| == |mem[k]|
  }

  /** All is well exactly when every record suits; otherwise the result is BADLEN. */
  lemma {:induction false} DeliveredOk(rs: seq<Rec>, types: seq<Word>, mem: seq<seq<Byte>>)
    requires |mem| == |types|
    ensures Delivered(rs, types, mem).0 == if forall i :: 0 <= i < |rs| ==> Suits(rs[i], types, mem) then 0 else -24
  {
    if rs != [] {
      var d := Deliver(types, mem, rs[0].id, rs[0].body);
      if d.0 == OK {
        DeliveredOk(rs[1..], types, d.1);
        assert forall r: Rec :: Suits(r, types, d.1) <==> Suits(r, types, mem);
        assert Suits(rs[0], types, mem);
      }
    }
  }

  /** The last record with an id. */
  ghost function LastBody(rs: seq<Rec>, id: Word): Option<seq<Byte>> {
    if rs == [] then None
    else if rs[|rs| - 1].id == id then Some(rs[|rs| - 1].body)
    else LastBody(rs[..|rs| - 1], id)
  }

  lemma {:induction false} LastBodyFront(rs: seq<Rec>, id: Word)
    requires rs != []
    ensures LastBody(rs, id) == if LastBody(rs[1..], id).Some? then LastBody(rs[1..], id) else LastBody([rs[0]], id)
  {
    if |rs| > 1 {
      LastBodyFront(rs[..|rs| - 1], id);
      assert rs[..|rs| - 1][1..] == rs[1..][..|rs| - 2];
    } else {
      assert rs == [rs[0]];
    }
  }

  /** Each memory then holds the last record of its type, if its descriptor is the first of that type and is reached, or is as it was. */
  lemma {:induction false} DeliveredAt(rs: seq<Rec>, types: seq<Word>, mem: seq<seq<Byte>>, k: nat)
    requires |mem| == |types| && k < |types| && Delivered(rs, types, mem).0 == OK
    ensures Delivered(rs, types, mem).1[k]
         == if types[k] != 0 && Slot(types, types[k]) == k && LastBody(rs, types[k]).Some? then LastBody(rs, types[k]).value else mem[k]
  {
    if rs != [] {
      var d := Deliver(types, mem, rs[0].id, rs[0].body);
      DeliveredAt(rs[1..], types, d.1, k);
      LastBodyFront(rs, types[k]);
    }
  }

  method Find(types: seq<Word>, id: Word) returns (k: nat)
    ensures k == Slot(types, id)
  {
    k := 0;
    while k < |types| && types[k] != 0 && types[k] != id
      invariant k <= |types| && forall j :: 0 <= j < k ==> types[j] !in {0, id}
    {
      k := k + 1;
    }
  }

  // ---------------------------------------------------------------- round trip

  ghost function Bodies(rs: seq<Rec>): (s: seq<seq<Byte>>)
    ensures |s| == |rs| && forall i :: 0 <= i < |rs| ==> s[i] == rs[i].body
  {
    seq(|rs|, i requires 0 <= i < |rs| => rs[i].body)
  }

  ghost predicate DistinctIds(rs: seq<Rec>) {
    forall i, j :: 0 <= i < j < |rs| ==> rs[i].id != rs[j].id
  }

  /** Descriptors for some records: their types, and memory of their lengths. */
  ghost predicate Describes(types: seq<Word>, mem: seq<seq<Byte>>, rs: seq<Rec>) {
    && |types| == |mem| == |rs|
    && forall i :: 0 <= i < |rs| ==> types[i] == rs[i].id != 0 && |mem[i]| == |rs[i].body|
  }

  /** A record goes to the descriptor that is the first of its type. */
  lemma DeliverFirst(rest: seq<Rec>, types: seq<Word>, mem: seq<seq<Byte>>, k: nat)
    requires rest != [] && |mem| == |types| && k < |types| && types[k] == rest[0].id && |mem[k]| == |rest[0].body|
    requires rest[0].id != 0 && forall j :: 0 <= j < k ==> types[j] !in {0, rest[0].id}
    ensures Delivered(rest, types, mem) == Delivered(rest[1..], types, mem[k := rest[0].body])
  {
    assert Slot(types, rest[0].id) == k;
  }

  /** With the first k delivered, the others follow. */
  lemma {:induction false} DeliversRest(rs: seq<Rec>, k: nat, types: seq<Word>, mem: seq<seq<Byte>>)
    requires k <= |rs| && DistinctIds(rs) && Describes(types, mem, rs)
    requires forall i :: 0 <= i < k ==> mem[i] == rs[i].body
    ensures Delivered(rs[k..], types, mem) == (OK, Bodies(rs))
    decreases |rs| - k
  {
    if k == |rs| {
      assert mem == Bodies(rs);
    } else {
      DeliverFirst(rs[k..], types, mem, k);
      assert rs[k..][1..] == rs[k + 1..];
      DeliversRest(rs, k + 1, types, mem[k := rs[k].body]);
    }
  }

  /**
    A buffer that holds exactly some records of different types, as packing leaves it, is unpacked
    without a byte left over, and every payload is restored.
   */
  lemma RoundTrip(b: seq<Byte>, rs: seq<Rec>, types: seq<Word>, mem: seq<seq<Byte>>, align: bool)
    requires Holds(b, 0, rs, align) && DistinctIds(rs) && Describes(types, mem, rs)
    ensures Records(b, 0, |b|, align) == rs && Total(rs, align) == |b|
    ensures Delivered(rs, types, mem) == (OK, Bodies(rs))
  {
    HoldsRecords(b, 0, rs, align);
    assert rs[0..] == rs;
    DeliversRest(rs, 0, types, mem);
  }

  lemma {:induction false} FitsAll(rs: seq<Rec>, room: int, align: bool)
    ensures Total(rs, align) <= room ==> Fit(rs, room, align) == |rs|
    decreases |rs|
  {
    if rs != [] {
      FitsAll(rs[1..], room - Size(|rs[0].body|, align), align);
    }
  }

  lemma {:induction false} ListAll(items: seq<Rec>)
    requires forall i :: 0 <= i < |items| ==> items[i].id != 0
    ensures ListEnd(items) == |items|
  {
    if items != [] {
      ListAll(items[1..]);
    }
  }

  /**
    Pack descriptors of distinct types that fit, then unpack just what was packed into memory of
    the same lengths: both calls succeed and every payload is restored.
   */
  method PackThenUnpack(buf: array<Byte>, items: seq<Rec>, types: seq<Word>, mem: array<seq<Byte>>, align: bool)
    returns (packed: int, len: nat, res: int, left: int)
    requires items != [] && AllOk(items) && DistinctIds(items) && Total(items, align) <= buf.Length
    requires mem.Length == |types| && Describes(types, mem[..], items)
    modifies buf, mem
    ensures packed == OK && len == Total(items, align)
    ensures res == OK && left == 0 && mem[..] == Bodies(items)
  {
    ListAll(items);
    FitsAll(items, buf.Length, align);
    assert items[..|items|] == items;
    var room;
    packed, len, room := PackFromMem(buf, buf.Length, items, align);
    RoundTrip(buf[..len], items, types, mem[..], align);
    res, left := UnpackToMem(buf[..len], len, types, mem, align);
  }

  /** How many of some records fit if a byte must be left. */
  function FitBefore(rs: seq<Rec>, room: int, align: bool): (n: nat)
    ensures n <= |rs|
  {
    if rs == [] || Size(|rs[0].body|, align) >= room then 0
    else 1 + FitBefore(rs[1..], room - Size(|rs[0].body|, align), align)
  }

  /** They are the longest prefix that is shorter than the buffer. */
  lemma {:induction false} FitBeforeIs(rs: seq<Rec>, room: nat, align: bool)
    ensures Total(rs[..FitBefore(rs, room, align)], align) < room || FitBefore(rs, room, align) == 0
    ensures FitBefore(rs, room, align) < |rs| ==> Total(rs[..FitBefore(rs, room, align) + 1], align) >= room
    decreases |rs|
  {
    if rs != [] && Size(|rs[0].body|, align) < room {
      FitBeforeIs(rs[1..], room - Size(|rs[0].body|, align), align);
      TakeNext(rs, FitBefore(rs, room, align));
      if FitBefore(rs, room, align) < |rs| {
        TakeNext(rs, FitBefore(rs, room, align) + 1);
      }
    } else if rs != [] {
      TakeNext(rs, 1);
    }
  }

  /**
    `bcm_pack_xtlv_buf`; the callbacks hand out the items in order. A record that would end exactly
    at the end of the buffer is refused.
   */
  method PackBuf(buf: array<Byte>, buflen: nat, items: seq<Rec>, align: bool) returns (res: int, outlen: nat)
    requires AllOk(items) && items != [] && buflen <= buf.Length
    modifies buf
    ensures outlen <= buflen && Holds(buf[..outlen], 0, items[..FitBefore(items, buflen, align)], align) == true
    ensures res == if FitBefore(items, buflen, align) == |items| then OK else BUFTOOSHORT
  {
    res, outlen := OK, 0;
    ghost var fit := FitBefore(items, buflen, align);
    assert items[0..] == items;
    var k, more := 0, true;
    while more && outlen < buflen
      invariant k <= |items| && outlen <= buflen && more == (k < |items|) && (k > 0 ==> outlen < buflen)
      invariant Holds(buf[..outlen], 0, items[..k], align)
      invariant fit == k + FitBefore(items[k..], buflen - outlen, align)
      decreases |items| - k
    {
      more := k + 1 < |items|;
      var ok;
      ok, outlen := PackNext(buf, outlen, buflen, items, k, align);
      if !ok {
        return BUFTOOSHORT, outlen;
      }
      k := k + 1;
    }
    assert items[..|items|] == items;
    if more {
      res := BUFTOOSHORT;
    }
  }

  /** One turn of the loop. */
  method PackNext(buf: array<Byte>, at: nat, buflen: nat, items: seq<Rec>, k: nat, align: bool) returns (ok: bool, at': nat)
    requires AllOk(items) && k < |items| && at < buflen <= buf.Length && Holds(buf[..at], 0, items[..k], align) == true
    modifies buf
    ensures at' < buflen && Holds(buf[..at'], 0, items[..if ok then k + 1 else k], align) == true
    ensures if ok then at' < buflen && FitBefore(items[k..], buflen - at, align) == 1 + FitBefore(items[k + 1..], buflen - at', align)
            else at' == at && FitBefore(items[k..], buflen - at, align) == 0
  {
    var id, body := items[k].id, items[k].body;
    var size := Size(|body|, align);
    FitBeforeNext(items, k, buflen - at, align, buflen - (at + size));
    if at + size >= buflen {
      return false, at;
    }
    StoreBehind(buf, at, id, body, align, items[..k]);
    ok, at' := true, at + size;
  }

  lemma FitBeforeNext(items: seq<Rec>, k: nat, room: int, align: bool, left: int)
    requires k < |items| && left == room - Size(|items[k].body|, align)
    ensures FitBefore(items[k..], room, align) == if left <= 0 then 0 else 1 + FitBefore(items[k + 1..], left, align)
    ensures items[..k + 1] == items[..k] + [Rec(items[k].id, items[k].body)]
  {
    assert items[k..][1..] == items[k + 1..];
  }

  // ---------------------------------------------------------------- visiting

  /** The first call for which the callback fails, or the number of calls. */
  function FirstFailure(n: nat, k: nat, cb: nat -> int): (f: nat)
    requires k <= n
    ensures k <= f <= n && (f < n ==> cb(f) != OK) && forall j :: k <= j < f ==> cb(j) == OK
    decreases n - k
  {
    if k == n || cb(k) != OK then k else FirstFailure(n, k + 1, cb)
  }

  /** The callback got all records, or those up to the first call that failed. */
  ghost predicate Visited(all: seq<Rec>, visits: seq<Rec>, res: int, cb: nat -> int) {
    var f := FirstFailure(|all|, 0, cb);
    visits == all[..if f < |all| then f + 1 else f] && res == if f < |all| then cb(f) else OK
  }

  /**
    `bcm_unpack_xtlv_buf`: the callback, which answers its k-th call with cb(k), is given the
    records in order, up to the first it refuses.
   */
  method UnpackBuf(b: seq<Byte>, buflen: nat, align: bool, cb: nat -> int) returns (res: int, visits: seq<Rec>)
    requires buflen <= |b|
    ensures Visited(Records(b, 0, buflen, align), visits, res, cb) == true
  {
    ghost var rest := Records(b, 0, buflen, align);
    ghost var all := rest;
    var at, sbuflen := 0, buflen as int;
    res, visits := OK, [];
    while sbuflen >= HDR
      invariant sbuflen >= 0 && at + sbuflen == buflen
      invariant res == OK && all == visits + rest && rest == Records(b, at, sbuflen, align)
      invariant forall j :: 0 <= j < |visits| ==> cb(j) == OK
      decreases sbuflen
    {
      var rec, next, left := Fetch(b, at, sbuflen, align, rest);
      if rec.None? {
        VisitsEnd(all, visits, rest, res, cb);
        return;
      }
      PushVisit(visits, rest);
      visits := visits + [rec.value];
      rest := rest[1..];
      res := cb(|visits| - 1);
      if res != OK {
        VisitsEnd(all, visits, rest, res, cb);
        return;
      }
      at, sbuflen := next, left;
    }
    RecordsNone(b, at, sbuflen, align);
    VisitsEnd(all, visits, rest, res, cb);
  }

  /** From a header at a place to the next place. */
  lemma RecordsStep(b: seq<Byte>, at: nat, n: int, align: bool, rest: seq<Rec>, next: nat, left: int)
    requires at + n <= |b| && n >= HDR && rest == Records(b, at, n, align)
    requires next == at + Size(Le16(b, at + 2), align) && left == n - Size(Le16(b, at + 2), align)
    ensures left < 0 ==> rest == []
    ensures left >= 0 ==> rest != [] && rest[0] == Rec(Le16(b, at), b[at + HDR..at + HDR + Le16(b, at + 2)])
    ensures left >= 0 ==> rest[1..] == Records(b, next, left, align)
  {
    if Valid(b, at, n, align) {
      RecordsFirst(b, at, n, align, rest);
    } else {
      RecordsNone(b, at, n, align);
    }
  }

  /** The header at a place, and the place behind the record unless that is cut off. */
  method Fetch(b: seq<Byte>, at: nat, sbuflen: int, align: bool, ghost rest: seq<Rec>) returns (rec: Option<Rec>, next: nat, left: int)
    requires at + sbuflen <= |b| && sbuflen >= HDR && rest == Records(b, at, sbuflen, align)
    ensures rec == None ==> rest == []
    ensures rec.Some? ==> rest != [] && rest[0] == rec.value
    ensures rec.Some? ==> next + left == at + sbuflen && 0 <= left < sbuflen && rest[1..] == Records(b, next, left, align)
  {
    var id, len := Le16(b, at), Le16(b, at + 2);
    next, left := at + Size(len, align), sbuflen - Size(len, align);
    RecordsStep(b, at, sbuflen, align, rest, next, left);
    rec := if left < 0 then None else Some(Rec(id, b[at + HDR..at + HDR + len]));
  }

  lemma PushVisit(visits: seq<Rec>, rest: seq<Rec>)
    requires rest != []
    ensures visits + [rest[0]] + rest[1..] == visits + rest
  {
  }

  /** The calls so far, when the loop ends. */
  lemma VisitsEnd(all: seq<Rec>, visits: seq<Rec>, rest: seq<Rec>, res: int, cb: nat -> int)
    requires all == visits + rest && if res == OK then rest == [] else visits != [] && res == cb(|visits| - 1)
    requires forall j :: 0 <= j < (if res == OK then |visits| else |visits| - 1) ==> cb(j) == OK
    ensures Visited(all, visits, res, cb) == true
  {
  }

  function Lookup(rs: seq<Rec>, id: Word): Option<seq<Byte>> {
    if rs == [] then None else if rs[0].id == id then Some(rs[0].body) else Lookup(rs[1..], id)
  }

  /** `bcm_get_data_from_xtlv_buf`: the payload of the first record with the id. */
  method GetData(b: seq<Byte>, buflen: nat, id: Word, align: bool) returns (data: Option<seq<Byte>>)
    requires buflen <= |b|
    ensures data == Lookup(Records(b, 0, buflen, align), id)
  {
    ghost var rest := Records(b, 0, buflen, align);
    ghost var all := Lookup(rest, id);
    var at, sbuflen := 0, buflen as int;
    while sbuflen >= HDR
      invariant sbuflen >= 0 && at + sbuflen == buflen
      invariant all == Lookup(rest, id) && rest == Records(b, at, sbuflen, align)
      decreases sbuflen
    {
      var rec, next, left := Fetch(b, at, sbuflen, align, rest);
      if rec.None? {
        return None;
      }
      if rec.value.id == id {
        return Some(rec.value.body);
      }
      rest := rest[1..];
      at, sbuflen := next, left;
    }
    RecordsNone(b, at, sbuflen, align);
    data := None;
  }

  /** What was packed is what is visited and looked up. */
  lemma PackedIsVisited(b: seq<Byte>, rs: seq<Rec>, align: bool, k: nat)
    requires Holds(b, 0, rs, align) && k < |rs| && forall j :: 0 <= j < k ==> rs[j].id != rs[k].id
    ensures Records(b, 0, |b|, align) == rs && Lookup(rs, rs[k].id) == Some(rs[k].body)
  {
    HoldsRecords(b, 0, rs, align);
    LookupFirst(rs, k);
  }

  /** Nothing is found exactly when no record has the id. */
  lemma {:induction false} LookupNone(rs: seq<Rec>, id: Word)
    ensures Lookup(rs, id) == None <==> forall i :: 0 <= i < |rs| ==> rs[i].id != id
  {
    if rs != [] {
      LookupNone(rs[1..], id);
    }
  }

  lemma {:induction false} LookupFirst(rs: seq<Rec>, k: nat)
    requires k < |rs| && forall j :: 0 <= j < k ==> rs[j].id != rs[k].id
    ensures Lookup(rs, rs[k].id) == Some(rs[k].body)
  {
    if k > 0 {
      LookupFirst(rs[1..], k - 1);
    }
  }

  // ---------------------------------------------------------------- a buffer that grows

  /** The low n bytes of a number, lowest first. */
  function Le(x: nat, n: nat): (s: seq<Byte>)
    ensures |s| == n
  {
    if n == 0 then [] else [x % 256] + Le(x / 256, n - 1)
  }

  lemma LeBytes(x: nat)
    ensures Le(x, 1) == [x % 256]
    ensures Le(x, 2) == [x % 256, x / 256 % 256]
    ensures Le(x, 4) == [x % 256, x / 256 % 256, x / 256 / 256 % 256, x / 256 / 256 / 256 % 256]
  {
    assert Le(x, 2) == [x % 256] + Le(x / 256, 1);
    assert Le(x / 256 / 256, 2) == [x / 256 / 256 % 256] + Le(x / 256 / 256 / 256, 1);
    assert Le(x / 256, 3) == [x / 256 % 256] + Le(x / 256 / 256, 2);
  }

  class XtlvBuf {
    const head: array<Byte>
    const align: bool
    var pos: nat
    ghost var rs: seq<Rec>

    ghost predicate Valid()
      reads this, head
    {
      pos <= head.Length < 0x1_0000 && Holds(head[..pos], 0, rs, align) == true
    }

    /** `bcm_xtlv_buf_init`. */
    constructor (buf: array<Byte>, align: bool)
      requires 0 < buf.Length < 0x1_0000
      ensures Valid() && rs == [] && head == buf && this.align == align
    {
      head, this.align, pos, rs := buf, align, 0, [];
    }

    /** `bcm_xtlv_put_data`. */
    method PutData(id: Word, data: seq<Byte>) returns (res: int)
      requires Valid() && |data| < 0x1_0000
      modifies this`pos, this`rs, head
      ensures Valid() && (res == OK <==> Size(|data|, align) <= head.Length - old(pos))
      ensures if res == OK then rs == old(rs) + [Rec(id, data)] && pos == old(pos) + Size(|data|, align)
              else res == NOMEM && rs == old(rs) && pos == old(pos)
    {
      var size := Size(|data|, align);
      if head.Length - pos < size {
        return NOMEM;
      }
      StoreBehind(head, pos, id, data, align, rs);
      pos := pos + size;
      rs := rs + [Rec(id, data)];
      res := OK;
    }

    /** `bcm_xtlv_put_8`, `_16` and `_32`: a number of n bytes, little-endian. */
    method PutNumber(id: Word, x: nat, n: nat) returns (res: int)
      requires Valid() && n in {1, 2, 4}
      modifies this`pos, this`rs, head
      ensures Valid() && (res == OK <==> Size(n, align) <= head.Length - old(pos))
      ensures rs == if res == OK then old(rs) + [Rec(id, Le(x, n))] else old(rs)
    {
      res := PutData(id, Le(x, n));
    }
  }
}
