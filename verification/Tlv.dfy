/**
  Elements of a one-byte id, a one-byte length and a body (bcmutils.c; element format, section
  9.4.2.1 of IEEE Std 802.11-2016): writing them one after another and finding them again.
 */
module Tlv {
  import opened Octets

  const HDR: nat := 2
  const MAX_DATA: nat := 255

  /** An element. */
  datatype Elt = Elt(id: Byte, body: seq<Byte>) {
    ghost predicate Ok() {
      |body| <= MAX_DATA
    }
  }

  ghost predicate AllOk(es: seq<Elt>) {
    forall i :: 0 <= i < |es| ==> es[i].Ok()
  }

  ghost function One(e: Elt): (b: seq<Byte>)
    requires e.Ok()
    ensures |b| == HDR + |e.body| && b[0] == e.id && b[1] == |e.body| && b[HDR..] == e.body
  {
    [e.id, |e.body|] + e.body
  }

  /** Elements one after another. */
  ghost function Encode(es: seq<Elt>): seq<Byte>
    requires AllOk(es)
  {
    if es == [] then [] else One(es[0]) + Encode(es[1..])
  }

  /** Where the k-th element begins. */
  ghost function Offset(es: seq<Elt>, k: nat): nat
    requires k <= |es|
  {
    if k == 0 then 0 else HDR + |es[0].body| + Offset(es[1..], k - 1)
  }

  // ---------------------------------------------------------------- writing

  /** A call of `bcm_write_tlv_safe`; `data` is None for a null pointer. */
  datatype Call = Call(id: int, data: Option<seq<Byte>>, datalen: int) {
    /** What a caller must pass: as much data as it says. */
    predicate Sane() {
      data.Some? ==> datalen <= |data.value|
    }

    predicate Writes(room: int) {
      && 0 <= datalen <= MAX_DATA && datalen + HDR <= room
      && (data.Some? || datalen == 0)
    }

    /** The element it writes; the id is cut to a byte. */
    ghost function Element(): Elt
      requires Sane() && 0 <= datalen && (data.Some? || datalen == 0)
    {
      Elt(id % 256, if datalen == 0 then [] else data.value[..datalen])
    }
  }

  ghost predicate AllSane(calls: seq<Call>) {
    forall i :: 0 <= i < |calls| ==> calls[i].Sane()
  }

  /** The elements that a sequence of calls leaves in a buffer with `room` bytes: those that are valid and fit. */
  ghost function Kept(calls: seq<Call>, room: int): (es: seq<Elt>)
    requires AllSane(calls)
    ensures AllOk(es)
  {
    if calls == [] then []
    else if calls[0].Writes(room) then
      [calls[0].Element()] + Kept(calls[1..], room - HDR - calls[0].datalen)
    else Kept(calls[1..], room)
  }

  /** `bcm_write_tlv_safe` at a place of a buffer; the result is the place behind what it wrote. */
  method WriteTlvSafe(call: Call, dst: array<Byte>, at: nat, dstMaxlen: int) returns (newAt: nat)
    requires call.Sane() && at <= dst.Length && at + dstMaxlen <= dst.Length
    modifies dst
    ensures if call.Writes(dstMaxlen) then
              && newAt == at + HDR + call.datalen <= dst.Length
              && dst[..] == old(dst[..at]) + One(call.Element()) + old(dst[newAt..])
            else newAt == at && dst[..] == old(dst[..])
  {
    newAt := at;
    if 0 <= call.datalen <= MAX_DATA {
      if call.datalen + HDR <= dstMaxlen {
        if call.data.Some? || call.datalen == 0 {
          newAt := Fill(call.id % 256, if call.datalen > 0 then call.data.value[..call.datalen] else [], dst, at);
        }
      }
    }
  }

  /** The part of `bcm_write_tlv` that writes. */
  method Fill(id: Byte, data: seq<Byte>, dst: array<Byte>, at: nat) returns (newAt: nat)
    requires |data| <= MAX_DATA && at + HDR + |data| <= dst.Length
    modifies dst
    ensures newAt == at + HDR + |data|
    ensures dst[..] == old(dst[..at]) + One(Elt(id, data)) + old(dst[newAt..])
  {
    ghost var was := dst[..];
    dst[at], dst[at + 1] := id, |data|;
    newAt := at + HDR + |data|;
    for i := 0 to |data|
      invariant dst[at] == id && dst[at + 1] == |data|
      invariant forall j :: 0 <= j < i ==> dst[at + HDR + j] == data[j]
      invariant forall j :: 0 <= j < dst.Length && !(at <= j < at + HDR + i) ==> dst[j] == was[j]
    {
      dst[at + HDR + i] := data[i];
    }
  }

  /** A run of writes fills a buffer with the elements that are kept, and changes nothing behind them. */
  method WriteAll(calls: seq<Call>, dst: array<Byte>) returns (end: nat)
    requires AllSane(calls)
    modifies dst
    ensures end <= dst.Length && dst[..end] == Encode(Kept(calls, dst.Length))
    ensures dst[end..] == old(dst[end..])
  {
    end := 0;
    ghost var done: seq<Elt> := [];
    assert calls[0..] == calls;
    for k := 0 to |calls|
      invariant end <= dst.Length && AllOk(done) && dst[..end] == Encode(done)
      invariant dst[end..] == old(dst[end..])
      invariant Kept(calls, dst.Length) == done + Kept(calls[k..], dst.Length - end)
    {
      KeptNext(calls, k, dst.Length - end, done);
      if calls[k].Writes(dst.Length - end) {
        EncodeSnoc(done, calls[k].Element());
        done := done + [calls[k].Element()];
      }
      end := WriteNext(calls[k], dst, end);
    }
    assert calls[|calls|..] == [];
    assert done + [] == done;
    assert Kept(calls, dst.Length) == done;
  }

  /** A single call writes if and only if its length is that of an element, there is room and there is data. */
  lemma KeptOne(c: Call, room: int)
    requires c.Sane()
    ensures Kept([c], room) != [] <==> 0 <= c.datalen <= 255 && 2 + c.datalen <= room && (c.data.Some? || c.datalen == 0)
    ensures Kept([c], room) != [] ==> |Kept([c], room)| == 1 && (0 <= c.id < 256 ==> Kept([c], room)[0].id == c.id)
    ensures Kept([c], room) != [] && c.datalen > 0 ==> Kept([c], room)[0].body == c.data.value[..c.datalen]
  {
    assert [c][1..] == [];
  }

  /** The elements kept fit. */
  lemma {:induction false} KeptFits(calls: seq<Call>, room: nat)
    requires AllSane(calls)
    ensures |Encode(Kept(calls, room))| <= room
  {
    if calls != [] {
      KeptFits(calls[1..], if calls[0].Writes(room) then room - HDR - calls[0].datalen else room);
    }
  }

  /** What an element must be: at most 255 bytes, and none of them without data. */
  ghost predicate AllWritable(calls: seq<Call>) {
    forall i :: 0 <= i < |calls| ==> 0 <= calls[i].datalen <= 255 && (calls[i].data.Some? || calls[i].datalen == 0)
  }

  /** The bytes that some calls ask for. */
  ghost function Asked(calls: seq<Call>): (n: int)
    ensures AllWritable(calls) ==> n >= 0
  {
    if calls == [] then 0 else 2 + calls[0].datalen + Asked(calls[1..])
  }

  /** If there is room for all, all are kept. */
  lemma {:induction false} KeptAll(calls: seq<Call>, room: int)
    requires AllSane(calls) && AllWritable(calls) && Asked(calls) <= room
    ensures var es := Kept(calls, room);
      |es| == |calls| && forall i :: 0 <= i < |es| ==> es[i] == Elt(calls[i].id % 256, if calls[i].datalen == 0 then [] else calls[i].data.value[..calls[i].datalen])
  {
    if calls != [] {
      KeptAll(calls[1..], room - 2 - calls[0].datalen);
    }
  }

  /** One more write behind what is there. */
  method WriteNext(call: Call, dst: array<Byte>, at: nat) returns (end: nat)
    requires call.Sane() && at <= dst.Length
    modifies dst
    ensures at <= end <= dst.Length && dst[end..] == old(dst[end..])
    ensures if call.Writes(dst.Length - at) then end == at + HDR + call.datalen && dst[..end] == old(dst[..at]) + One(call.Element())
            else end == at && dst[..end] == old(dst[..at])
  {
    end := WriteTlvSafe(call, dst, at, dst.Length - at);
    assert dst[..end] == dst[..][..end] && dst[end..] == dst[..][end..];
  }

  lemma KeptNext(calls: seq<Call>, k: nat, room: int, done: seq<Elt>)
    requires AllSane(calls) && k < |calls|
    ensures done + Kept(calls[k..], room)
         == if calls[k].Writes(room) then done + [calls[k].Element()] + Kept(calls[k + 1..], room - HDR - calls[k].datalen)
            else done + Kept(calls[k + 1..], room)
  {
    assert calls[k..][1..] == calls[k + 1..];
  }

  lemma {:induction false} EncodeSnoc(es: seq<Elt>, e: Elt)
    requires AllOk(es) && e.Ok()
    ensures AllOk(es + [e]) && Encode(es + [e]) == Encode(es) + One(e)
  {
    if es == [] {
      assert [e][1..] == [];
    } else {
      EncodeSnoc(es[1..], e);
      assert (es + [e])[1..] == es[1..] + [e];
    }
  }

  // ---------------------------------------------------------------- finding

  /** What the walk of `bcm_parse_tlvs` finds from a place with `tot` bytes left. */
  function Parsed(b: seq<Byte>, at: nat, tot: int, key: nat): Option<nat>
    requires at + tot <= |b|
    decreases tot
  {
    if tot < HDR then None
    else
      var len: nat := b[at + 1];
      if b[at] == key && tot >= len + HDR then Some(at)
      else Parsed(b, at + len + HDR, tot - len - HDR, key)
  }

  /** `bcm_parse_tlvs`. */
  method ParseTlvs(buf: seq<Byte>, buflen: int, key: nat) returns (elt: Option<nat>)
    requires buflen <= |buf|
    ensures elt == Parsed(buf, 0, buflen, key)
  {
    var at, totlen := 0, buflen;
    while totlen >= HDR
      invariant at + totlen == buflen
      invariant Parsed(buf, 0, buflen, key) == Parsed(buf, at, totlen, key)
      decreases totlen
    {
      var len: nat := buf[at + 1];
      if buf[at] == key && totlen >= len + HDR {
        return Some(at);
      }
      at := at + len + HDR;
      totlen := totlen - (len + HDR);
    }
    elt := None;
  }

  /** The ids the walk meets, up to but without the element it finds. */
  function Met(b: seq<Byte>, at: nat, tot: int, key: nat): seq<Byte>
    requires at + tot <= |b|
    decreases tot
  {
    if tot < HDR then []
    else
      var len: nat := b[at + 1];
      if b[at] == key && tot >= len + HDR then []
      else [b[at]] + Met(b, at + len + HDR, tot - len - HDR, key)
  }

  /** `bcm_parse_ordered_tlvs`: gives up at an id above the key. */
  method ParseOrderedTlvs(buf: seq<Byte>, buflen: int, key: nat) returns (elt: Option<nat>)
    requires buflen <= |buf|
    ensures elt == if exists i :: 0 <= i < |Met(buf, 0, buflen, key)| && Met(buf, 0, buflen, key)[i] > key then None
                   else Parsed(buf, 0, buflen, key)
  {
    ghost var all := Met(buf, 0, buflen, key);
    ghost var seen: seq<Byte> := [];
    var at, totlen := 0, buflen;
    while totlen >= HDR
      invariant at + totlen == buflen
      invariant Parsed(buf, 0, buflen, key) == Parsed(buf, at, totlen, key)
      invariant all == seen + Met(buf, at, totlen, key)
      invariant forall i :: 0 <= i < |seen| ==> seen[i] <= key
      decreases totlen
    {
      var id, len: nat := buf[at], buf[at + 1];
      if id > key {
        assert all[|seen|] == id;
        return None;
      }
      if id == key && totlen >= len + HDR {
        return Some(at);
      }
      seen := seen + [id];
      at := at + len + HDR;
      totlen := totlen - (len + HDR);
    }
    elt := None;
  }

  /** Whatever the bytes, an element found has the key and lies inside those searched. */
  lemma {:induction false} ParsedInside(b: seq<Byte>, at: nat, tot: int, key: nat)
    requires at + tot <= |b|
    ensures var p := Parsed(b, at, tot, key);
      p.Some? ==> at <= p.value && p.value + HDR <= at + tot && b[p.value] == key
                  && p.value + HDR + b[p.value + 1] as int <= at + tot
    decreases tot
  {
    if tot >= HDR {
      var len: nat := b[at + 1];
      if !(b[at] == key && tot >= len + HDR) {
        ParsedInside(b, at + len + HDR, tot - len - HDR, key);
      }
    }
  }

  // ---------------------------------------------------------------- what is found

  /** The ids of all elements the walk would meet if it never stopped. */
  function Ids(b: seq<Byte>, at: nat, tot: int): seq<Byte>
    requires at + tot <= |b|
    decreases tot
  {
    if tot < HDR then []
    else
      var len: nat := b[at + 1];
      [b[at]] + Ids(b, at + len + HDR, tot - len - HDR)
  }

  ghost predicate Ascending(s: seq<Byte>) {
    forall i, j :: 0 <= i < j < |s| ==> s[i] <= s[j]
  }

  /** Where the ids do not descend, nothing above the key comes before an element with the key. */
  lemma {:induction false} OrderedAgrees(b: seq<Byte>, at: nat, tot: int, key: nat)
    requires at + tot <= |b| && Ascending(Ids(b, at, tot)) && Parsed(b, at, tot, key).Some?
    ensures forall i :: 0 <= i < |Met(b, at, tot, key)| ==> Met(b, at, tot, key)[i] <= key
    decreases tot
  {
    var len: nat := b[at + 1];
    if !(b[at] == key && tot >= len + HDR) {
      KeyAmongIds(b, at + len + HDR, tot - len - HDR, key);
      AscendingTail(b[at], Ids(b, at + len + HDR, tot - len - HDR));
      OrderedAgrees(b, at + len + HDR, tot - len - HDR, key);
    }
  }

  lemma AscendingTail(x: Byte, s: seq<Byte>)
    requires Ascending([x] + s)
    ensures Ascending(s) && forall y :: y in s ==> x <= y
  {
    assert forall i :: 0 <= i < |s| ==> s[i] == ([x] + s)[i + 1];
    assert ([x] + s)[0] == x;
  }

  lemma {:induction false} KeyAmongIds(b: seq<Byte>, at: nat, tot: int, key: nat)
    requires at + tot <= |b| && Parsed(b, at, tot, key).Some?
    ensures key < 256 && key in Ids(b, at, tot)
    decreases tot
  {
    var len: nat := b[at + 1];
    if !(b[at] == key && tot >= len + HDR) {
      KeyAmongIds(b, at + len + HDR, tot - len - HDR, key);
    }
  }

  ghost function FirstOf(es: seq<Elt>, key: nat): (k: nat)
    ensures k <= |es|
    ensures k < |es| ==> es[k].id == key
    ensures forall j :: 0 <= j < k ==> es[j].id != key
  {
    if es == [] || es[0].id == key then 0 else 1 + FirstOf(es[1..], key)
  }

  /** From a place on, a buffer holds exactly some elements. */
  ghost predicate Holds(b: seq<Byte>, at: nat, es: seq<Elt>) {
    AllOk(es) && at <= |b| && b[at..] == Encode(es)
  }

  /** The first of them, seen at its place. */
  lemma HoldsFirst(b: seq<Byte>, at: nat, es: seq<Elt>)
    requires Holds(b, at, es) && es != []
    ensures var next := at + HDR + |es[0].body|;
      && next <= |b| && b[at] == es[0].id && b[at + 1] == |es[0].body|
      && Holds(b, next, es[1..])
  {
    var one, rest := One(es[0]), Encode(es[1..]);
    assert b[at..] == one + rest;
    assert b[at] == b[at..][0] && b[at + 1] == b[at..][1];
    assert b[at + |one|..] == b[at..][|one|..] == rest;
  }

  lemma HoldsNone(b: seq<Byte>, at: nat, es: seq<Elt>)
    requires Holds(b, at, es)
    ensures es == [] <==> at == |b|
  {
    if es != [] {
      HoldsFirst(b, at, es);
    }
  }

  /** Over exactly the bytes of some elements, the walk finds the first with the key, and nothing if there is none. */
  lemma {:induction false} ParseFinds(b: seq<Byte>, at: nat, es: seq<Elt>, key: nat)
    requires Holds(b, at, es)
    ensures var k := FirstOf(es, key);
      at <= |b| && Parsed(b, at, |b| - at, key) == if k < |es| then Some(at + Offset(es, k)) else None
    decreases |es|
  {
    HoldsNone(b, at, es);
    if es != [] {
      HoldsFirst(b, at, es);
      ParseFinds(b, at + HDR + |es[0].body|, es[1..], key);
    }
  }

  /** The ids met are those of the elements before the one found. */
  lemma {:induction false} MetAre(b: seq<Byte>, at: nat, es: seq<Elt>, key: nat)
    requires Holds(b, at, es)
    ensures at <= |b| && |Met(b, at, |b| - at, key)| == FirstOf(es, key)
    ensures forall i :: 0 <= i < FirstOf(es, key) ==> Met(b, at, |b| - at, key)[i] == es[i].id
    decreases |es|
  {
    HoldsNone(b, at, es);
    if es != [] {
      HoldsFirst(b, at, es);
      MetAre(b, at + HDR + |es[0].body|, es[1..], key);
    }
  }

  /** What was written by a run of calls is found: the first kept element with the key. */
  lemma WrittenIsFound(calls: seq<Call>, room: nat, key: nat)
    requires AllSane(calls)
    ensures var es := Kept(calls, room); var k := FirstOf(es, key);
      Parsed(Encode(es), 0, |Encode(es)|, key) == if k < |es| then Some(Offset(es, k)) else None
  {
    var b := Encode(Kept(calls, room));
    assert b[0..] == b;
    ParseFinds(b, 0, Kept(calls, room), key);
  }

  // ---------------------------------------------------------------- stepping

  /** `bcm_valid_tlv` of the element at a place. */
  predicate Valid(b: seq<Byte>, at: nat, buflen: int)
    requires at + buflen <= |b|
  {
    buflen >= HDR && (var len: nat := b[at + 1]; buflen >= HDR + len)
  }

  /** `bcm_next_tlv`: the next element and what is left behind the current one. */
  function Next(b: seq<Byte>, at: nat, buflen: int): (r: (Option<nat>, int))
    requires at + buflen <= |b|
    ensures r.0.Some? ==> at < r.0.value && r.0.value + r.1 == at + buflen && Valid(b, r.0.value, r.1)
    ensures r.0.Some? ==> r.1 < buflen
  {
    if !Valid(b, at, buflen) then (None, buflen)
    else
      var len: nat := b[at + 1];
      var left := buflen - (HDR + len);
      (if Valid(b, at + HDR + len, left) then Some(at + HDR + len) else None, left)
  }

  /** The places stepped through from a valid element. */
  function Steps(b: seq<Byte>, at: nat, buflen: int): seq<nat>
    requires at + buflen <= |b|
    decreases buflen
  {
    if !Valid(b, at, buflen) then []
    else
      var (next, left) := Next(b, at, buflen);
      [at] + if next.Some? then Steps(b, next.value, left) else []
  }

  /** Stepping visits every element once, in order. */
  lemma {:induction false} StepsVisitAll(b: seq<Byte>, at: nat, es: seq<Elt>)
    requires Holds(b, at, es)
    ensures at <= |b|
    ensures var s := Steps(b, at, |b| - at);
      |s| == |es| && forall k :: 0 <= k < |es| ==> s[k] == at + Offset(es, k)
    decreases |es|
  {
    HoldsNone(b, at, es);
    if es != [] {
      var next := at + HDR + |es[0].body|;
      HoldsFirst(b, at, es);
      StepsVisitAll(b, next, es[1..]);
      StepOne(b, at, es, next);
    }
  }

  lemma HoldsValid(b: seq<Byte>, at: nat, es: seq<Elt>)
    requires Holds(b, at, es)
    ensures at <= |b| && (Valid(b, at, |b| - at) <==> es != [])
  {
    HoldsNone(b, at, es);
    if es != [] {
      HoldsFirst(b, at, es);
    }
  }

  lemma StepOne(b: seq<Byte>, at: nat, es: seq<Elt>, next: nat)
    requires Holds(b, at, es) && es != [] && next == at + HDR + |es[0].body|
    ensures next <= |b| && Steps(b, at, |b| - at) == [at] + Steps(b, next, |b| - next)
  {
    NextIs(b, at, es, next);
    StepsUnfold(b, at, |b| - at, next);
  }

  lemma StepsUnfold(b: seq<Byte>, at: nat, n: int, next: nat)
    requires at + n <= |b| && at <= next <= at + n && Valid(b, at, n) && Next(b, at, n).1 == n - (next - at)
    requires Next(b, at, n).0 == if Valid(b, next, n - (next - at)) then Some(next) else None
    ensures Steps(b, at, n) == [at] + Steps(b, next, n - (next - at))
  {
  }

  lemma NextIs(b: seq<Byte>, at: nat, es: seq<Elt>, next: nat)
    requires Holds(b, at, es) && es != [] && next == at + HDR + |es[0].body|
    ensures at <= |b| && next <= |b| && Next(b, at, |b| - at) == (if es[1..] == [] then None else Some(next), |b| - next)
    ensures Valid(b, at, |b| - at) && (Valid(b, next, |b| - next) <==> es[1..] != [])
  {
    HoldsFirst(b, at, es);
    HoldsValid(b, next, es[1..]);
  }
}
