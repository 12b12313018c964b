/**
  TCP ACK suppression in REPLACE mode (dhd_ip.c): a queued pure ACK is overwritten in place
  by a later one of its stream. Frames are byte sequences beginning at the Ethernet header.
 */
module AckReplace {
  import opened Octets
  import opened PshPool

  const ETHER_HDR_LEN: nat := 14
  const TCPACKSZMIN: nat := ETHER_HDR_LEN + 20 + 20
  const TCPACKSZMAX: nat := TCPACKSZMIN + 100

  type Frame = seq<Byte>

  /** `IS_TCPSEQ_GT` on 32-bit sequence numbers. */
  predicate SeqGt(a: int, b: int) {
    !((b - a) % 0x1_0000_0000 < 0x8000_0000)
  }

  /** Greater means: ahead by at least 1 and at most 2^31. */
  lemma GtIsForward(a: int, b: int)
    ensures SeqGt(a, b) <==> 0 < (a - b) % 0x1_0000_0000 <= 0x8000_0000
  {
  }

  // ---------------------------------------------------------------- frames

  function Be(f: Frame, at: nat, n: nat): nat
    requires at + n <= |f|
  {
    if n == 0 then 0
    else
      var b: nat := f[at + n - 1];
      Be(f, at, n - 1) * 256 + b
  }

  /** `IPV4_HLEN`. */
  function IpLen(f: Frame): nat
    requires |f| > ETHER_HDR_LEN
  {
    var b: nat := f[ETHER_HDR_LEN];
    4 * (b % 16)
  }

  /** The length of the TCP header behind an IP header. */
  function TcpLen(f: Frame): nat
    requires |f| > ETHER_HDR_LEN && ETHER_HDR_LEN + IpLen(f) + 20 <= |f|
  {
    var b: nat := f[ETHER_HDR_LEN + IpLen(f) + 12];
    4 * (b / 16)
  }

  /** A frame of the size of an ACK that carries TCP over IPv4. */
  predicate IsTcp(f: Frame) {
    && TCPACKSZMIN <= |f| <= TCPACKSZMAX
    && Be(f, 12, 2) == 0x0800
    && f[14] / 16 == 4 && f[23] == 6
  }

  /** A frame that reaches the table: only the ACK flag, and no data. */
  predicate IsAck(f: Frame) {
    && IsTcp(f) && ETHER_HDR_LEN + IpLen(f) + 20 <= |f|
    && f[ETHER_HDR_LEN + IpLen(f) + 13] == 0x10
    && Be(f, 16, 2) <= IpLen(f) + TcpLen(f)
  }

  /** What the code asserts of TCP frames, with headers of their least length and a datagram within its frame. */
  predicate Sane(f: Frame) {
    && (IsTcp(f) ==> IpLen(f) >= 20 && ETHER_HDR_LEN + IpLen(f) + 20 <= |f|)
    && (IsAck(f) ==> TcpLen(f) >= 20 && Be(f, 16, 2) == IpLen(f) + TcpLen(f) <= |f| - ETHER_HDR_LEN)
  }

  /** Numbers are read high byte first. */
  lemma BeBytes(f: Frame, at: nat)
    requires at + 4 <= |f|
    ensures Be(f, at, 2) == f[at] as int * 256 + f[at + 1] as int
    ensures Be(f, at, 4) == ((f[at] as int * 256 + f[at + 1] as int) * 256 + f[at + 2] as int) * 256 + f[at + 3] as int
  {
    assert Be(f, at, 3) == Be(f, at, 2) * 256 + f[at + 2] as int;
    assert Be(f, at, 2) == Be(f, at, 1) * 256 + f[at + 1] as int;
  }

  /** Header lengths are counted in words, that of IP in the low half of its byte and that of TCP in the high half. */
  lemma HeaderWords(f: Frame, ip: nat, tcp: nat, x: nat, y: nat)
    requires ip < 16 && tcp < 16 && x < 16 && y < 16 && |f| > 14 && f[14] as int == 16 * x + ip
    requires 14 + 4 * ip + 20 <= |f| && f[14 + 4 * ip + 12] as int == 16 * tcp + y
    ensures IpLen(f) == 4 * ip && TcpLen(f) == 4 * tcp
  {
  }

  /** Addresses and ports. */
  function Flow(f: Frame): (Frame, Frame)
    requires IsAck(f)
  {
    (f[26..34], f[ETHER_HDR_LEN + IpLen(f)..ETHER_HDR_LEN + IpLen(f) + 4])
  }

  function AckNum(f: Frame): nat
    requires IsAck(f)
  {
    Be(f, ETHER_HDR_LEN + IpLen(f) + 8, 4)
  }

  /** The IP datagram of an ACK. */
  function Datagram(f: Frame): Frame
    requires IsAck(f) && Sane(f)
  {
    f[ETHER_HDR_LEN..ETHER_HDR_LEN + Be(f, 16, 2)]
  }

  /** Copying the datagram of one frame over that of another. */
  function Patch(q: Frame, f: Frame): Frame
    requires IsAck(f) && Sane(f) && ETHER_HDR_LEN + Be(f, 16, 2) <= |q|
  {
    q[..ETHER_HDR_LEN] + Datagram(f) + q[ETHER_HDR_LEN + Be(f, 16, 2)..]
  }

  predicate SameLengths(q: Frame, f: Frame)
    requires IsAck(q) && IsAck(f)
  {
    IpLen(f) == IpLen(q) && TcpLen(f) == TcpLen(q)
  }

  lemma Fits(q: Frame, f: Frame)
    requires IsAck(q) && IsAck(f) && Sane(q) && Sane(f) && SameLengths(q, f)
    ensures Be(q, 16, 2) == Be(f, 16, 2) && ETHER_HDR_LEN + Be(f, 16, 2) <= |q|
  {
  }

  lemma {:induction false} BeEqual(f: Frame, g: Frame, at: nat, n: nat)
    requires at + n <= |f| && at + n <= |g|
    requires forall i :: at <= i < at + n ==> f[i] == g[i]
    ensures Be(f, at, n) == Be(g, at, n)
  {
    if n > 0 {
      BeEqual(f, g, at, n - 1);
    }
  }

  predicate InFrame(f: Frame, i: nat) {
    i < |f|
  }

  /** The datagram is not longer than its frame. */
  predicate Within(f: Frame)
    requires IsAck(f)
  {
    ETHER_HDR_LEN + Be(f, 16, 2) <= |f|
  }

  /**
    For frames that meet the code's assertions, copying the datagram of one ACK over another's
    stays inside both frames if and only if both datagrams are within theirs.
   */
  lemma CopyInside(q: Frame, f: Frame)
    requires IsAck(q) && IsAck(f) && SameLengths(q, f)
    requires Be(q, 16, 2) == IpLen(q) + TcpLen(q) && Be(f, 16, 2) == IpLen(f) + TcpLen(f)
    ensures (forall i: nat :: ETHER_HDR_LEN <= i < ETHER_HDR_LEN + Be(f, 16, 2) ==> InFrame(f, i) && InFrame(q, i))
       <==> Within(q) && Within(f)
  {
    if !Within(q) || !Within(f) {
      var i: nat := ETHER_HDR_LEN + Be(f, 16, 2) - 1;
      assert !InFrame(f, i) || !InFrame(q, i);
    }
  }

  /** p agrees with f on its datagram and with q elsewhere. */
  ghost predicate Overlaid(p: Frame, q: Frame, f: Frame)
    requires IsAck(f) && Sane(f)
  {
    && |p| == |q|
    && forall i :: 0 <= i < |q| ==> p[i] == if ETHER_HDR_LEN <= i < ETHER_HDR_LEN + Be(f, 16, 2) then f[i] else q[i]
  }

  lemma PatchOverlays(q: Frame, f: Frame)
    requires IsAck(f) && Sane(f) && ETHER_HDR_LEN + Be(f, 16, 2) <= |q|
    ensures Overlaid(Patch(q, f), q, f)
  {
  }

  lemma OverlaidHeader(p: Frame, q: Frame, f: Frame)
    requires IsAck(q) && IsAck(f) && Sane(q) && Sane(f) && SameLengths(q, f) && Overlaid(p, q, f)
    ensures IsTcp(p) && IpLen(p) == IpLen(f) && Be(p, 16, 2) == Be(f, 16, 2)
    ensures TcpLen(p) == TcpLen(f) && p[ETHER_HDR_LEN + IpLen(f) + 13] == 0x10
  {
    assert Be(f, 16, 2) >= 40;
    assert p[14] == f[14] && p[23] == f[23];
    BeEqual(p, q, 12, 2);
    BeEqual(p, f, 16, 2);
    assert p[ETHER_HDR_LEN + IpLen(f) + 12] == f[ETHER_HDR_LEN + IpLen(f) + 12];
    assert p[ETHER_HDR_LEN + IpLen(f) + 13] == f[ETHER_HDR_LEN + IpLen(f) + 13];
  }

  /** The queued frame now carries exactly the new datagram: same stream, same number, same bytes. */
  lemma PatchCarries(q: Frame, f: Frame)
    requires IsAck(q) && IsAck(f) && Sane(q) && Sane(f) && SameLengths(q, f)
    ensures var p := Patch(q, f);
      IsAck(p) && Sane(p) && Datagram(p) == Datagram(f) && AckNum(p) == AckNum(f) && Flow(p) == Flow(f)
  {
    var p := Patch(q, f);
    PatchOverlays(q, f);
    OverlaidHeader(p, q, f);
    BeEqual(p, f, ETHER_HDR_LEN + IpLen(f) + 8, 4);
    assert Datagram(p) == Datagram(f);
    FlowOf(p, f);
  }

  lemma FlowOf(p: Frame, f: Frame)
    requires IsAck(p) && IsAck(f) && Sane(p) && Sane(f) && Datagram(p) == Datagram(f) && IpLen(p) == IpLen(f)
    ensures Flow(p) == Flow(f)
  {
    FlowInDatagram(p);
    FlowInDatagram(f);
  }

  lemma FlowInDatagram(f: Frame)
    requires IsAck(f) && Sane(f)
    ensures |Datagram(f)| >= IpLen(f) + 20 >= 40
    ensures Flow(f) == (Datagram(f)[12..20], Datagram(f)[IpLen(f)..IpLen(f) + 4])
  {
    Slice(f, ETHER_HDR_LEN, ETHER_HDR_LEN + Be(f, 16, 2), 12, 20);
    Slice(f, ETHER_HDR_LEN, ETHER_HDR_LEN + Be(f, 16, 2), IpLen(f), IpLen(f) + 4);
  }

  /** The number is in bytes 8 to 11 of the TCP header. */
  lemma NumInDatagram(f: Frame)
    requires IsAck(f) && Sane(f)
    ensures var d, n := Datagram(f), IpLen(f);
      |d| >= n + 20
      && AckNum(f) == ((d[n + 8] as int * 256 + d[n + 9] as int) * 256 + d[n + 10] as int) * 256 + d[n + 11] as int
  {
    FlowInDatagram(f);
    BeBytes(f, ETHER_HDR_LEN + IpLen(f) + 8);
  }

  lemma Slice(f: Frame, a: nat, b: nat, c: nat, d: nat)
    requires c <= d <= b - a && a <= b <= |f|
    ensures f[a..b][c..d] == f[a + c..a + d]
  {
    var x, y := f[a..b][c..d], f[a + c..a + d];
    assert |x| == |y|;
    forall i | 0 <= i < d - c ensures x[i] == y[i] {
      assert x[i] == f[a..b][c + i] == f[a + c + i];
      assert y[i] == f[a + c + i];
    }
  }

  // ---------------------------------------------------------------- the table as a sequence of frames

  /** Sane ACKs of different streams, at most four. */
  ghost predicate Distinct(t: seq<Frame>) {
    && |t| <= INFO_MAXNUM
    && (forall i :: 0 <= i < |t| ==> IsAck(t[i]) && Sane(t[i]))
    && (forall i, j :: 0 <= i < j < |t| ==> Flow(t[i]) != Flow(t[j]))
  }

  /** The entry of a stream, or the end of the table. */
  function Index(t: seq<Frame>, flow: (Frame, Frame)): (m: nat)
    requires forall i :: 0 <= i < |t| ==> IsAck(t[i])
    ensures m <= |t|
    ensures m < |t| ==> Flow(t[m]) == flow
    ensures forall j :: 0 <= j < m ==> Flow(t[j]) != flow
  {
    if t == [] || Flow(t[0]) == flow then 0 else 1 + Index(t[1..], flow)
  }

  /** A later ACK with headers of the same lengths replaces the queued one of its stream. */
  predicate Replaces(q: Frame, f: Frame)
    requires IsAck(q) && IsAck(f)
  {
    SeqGt(AckNum(f), AckNum(q)) && SameLengths(q, f)
  }

  /** The answer of `dhd_tcpack_suppress`, and the table after it. */
  function Suppressed(t: seq<Frame>, f: Frame): (bool, seq<Frame>)
    requires Sane(f) && forall i :: 0 <= i < |t| ==> IsAck(t[i]) && Sane(t[i])
  {
    if !IsAck(f) then (false, t)
    else
      var m := Index(t, Flow(f));
      if m < |t| then
        if Replaces(t[m], f) then
          Fits(t[m], f);
          (true, t[m := Patch(t[m], f)])
        else (false, t)
      else if |t| < INFO_MAXNUM then (false, t + [f])
      else (false, t)
  }

  lemma SuppressedDistinct(t: seq<Frame>, f: Frame)
    requires Distinct(t) && Sane(f)
    ensures Distinct(Suppressed(t, f).1)
  {
    if IsAck(f) {
      var m := Index(t, Flow(f));
      if m < |t| && Replaces(t[m], f) {
        PatchCarries(t[m], f);
        PatchDistinct(t, m, Patch(t[m], f));
      }
    }
  }

  lemma PatchDistinct(t: seq<Frame>, m: nat, p: Frame)
    requires Distinct(t) && m < |t| && IsAck(p) && Sane(p) && Flow(p) == Flow(t[m])
    ensures Distinct(t[m := p])
  {
  }

  /**
    A suppressed ACK is not lost: exactly one queued packet is of its stream, that one now carries
    its datagram, and its number is ahead of the one it carried before.
   */
  lemma SuppressedCarried(t: seq<Frame>, f: Frame)
    requires Distinct(t) && Sane(f)
    ensures var (ret, t') := Suppressed(t, f);
      ret ==> IsAck(f) && Carries(t, t', Index(t, Flow(f)), f)
  {
    var (ret, t') := Suppressed(t, f);
    if ret {
      var m := Index(t, Flow(f));
      PatchCarries(t[m], f);
      GtIsForward(AckNum(f), AckNum(t[m]));
      Fits(t[m], f);
    }
  }

  ghost predicate Carries(t: seq<Frame>, t': seq<Frame>, m: int, f: Frame)
    requires Distinct(t) && IsAck(f) && Sane(f)
  {
    && 0 <= m < |t| == |t'| && t' == t[m := t'[m]] && IsAck(t'[m]) && Sane(t'[m])
    && Flow(t[m]) == Flow(f) == Flow(t'[m]) && Datagram(t'[m]) == Datagram(f)
    && 0 < (AckNum(t'[m]) - AckNum(t[m])) % 0x1_0000_0000 <= 0x8000_0000
  }

  /**
    An ACK is suppressed if and only if one of its stream is queued that has headers of the same
    lengths and that it is ahead of, by at most 2^31.
   */
  lemma SuppressedIff(t: seq<Frame>, f: Frame)
    requires Distinct(t) && Sane(f)
    ensures Suppressed(t, f).0 <==> IsAck(f) && exists i :: 0 <= i < |t| && Supersedes(f, t[i])
  {
    if IsAck(f) {
      var m := Index(t, Flow(f));
      if m < |t| {
        GtIsForward(AckNum(f), AckNum(t[m]));
        assert Suppressed(t, f).0 ==> Supersedes(f, t[m]);
      }
    }
  }

  ghost predicate Supersedes(f: Frame, q: Frame)
    requires IsAck(f) && IsAck(q)
  {
    && Flow(q) == Flow(f) && IpLen(q) == IpLen(f) && TcpLen(q) == TcpLen(f)
    && 0 < (AckNum(f) - AckNum(q)) % 0x1_0000_0000 <= 0x8000_0000
  }

  /** An ACK that is not suppressed changes no queued frame; it is queued in the table itself unless its stream is there already or the table is full. */
  lemma NotSuppressed(t: seq<Frame>, f: Frame)
    requires Distinct(t) && Sane(f)
    ensures var (ret, t') := Suppressed(t, f);
      !ret ==> t' == t || t' == t + [f]
    ensures var (ret, t') := Suppressed(t, f);
      IsAck(f) && !ret ==> (t' == t + [f] <==> |t| < INFO_MAXNUM && forall i :: 0 <= i < |t| ==> Flow(t[i]) != Flow(f))
  {
    assert |t + [f]| == |t| + 1;
  }

  /** What happens to the table: a frame comes to be suppressed, or the packet of entry i is sent. */
  datatype Event = Suppress(f: Frame) | Xmit(i: nat)

  function Step(t: seq<Frame>, e: Event): seq<Frame>
    requires (forall i :: 0 <= i < |t| ==> IsAck(t[i]) && Sane(t[i])) && (e.Suppress? ==> Sane(e.f))
  {
    match e
    case Suppress(f) => Suppressed(t, f).1
    case Xmit(i) => if i < |t| then SwapDrop(t, i) else t
  }

  lemma DropDistinct(t: seq<Frame>, i: nat)
    requires Distinct(t) && i < |t|
    ensures Distinct(SwapDrop(t, i))
    ensures forall j :: 0 <= j < |t| && j != i ==> t[j] in SwapDrop(t, i)
    ensures forall j :: 0 <= j < |t| - 1 ==> SwapDrop(t, i)[j] in t
  {
    var d := SwapDrop(t, i);
    forall j | 0 <= j < |t| && j != i ensures t[j] in d {
      assert d[if j == |t| - 1 then i else j] == t[j];
    }
  }

  /** In every interleaving of suppressions and transmissions the table holds sane ACKs of different streams, at most four. */
  lemma {:induction false} RunDistinct(t: seq<Frame>, events: seq<Event>) returns (last: seq<Frame>)
    requires Distinct(t) && forall k :: 0 <= k < |events| && events[k].Suppress? ==> Sane(events[k].f)
    ensures Reaches(t, events, last) && Distinct(last)
    decreases |events|
  {
    if events == [] {
      last := t;
    } else {
      var e := events[0];
      match e {
        case Suppress(f) => SuppressedDistinct(t, f);
        case Xmit(i) => if i < |t| { DropDistinct(t, i); }
      }
      last := RunDistinct(Step(t, e), events[1..]);
    }
  }

  ghost predicate Reaches(t: seq<Frame>, events: seq<Event>, last: seq<Frame>)
    decreases |events|
  {
    if events == [] then last == t
    else
      && (forall i :: 0 <= i < |t| ==> IsAck(t[i]) && Sane(t[i])) && (events[0].Suppress? ==> Sane(events[0].f))
      && Reaches(Step(t, events[0]), events[1..], last)
  }

  // ---------------------------------------------------------------- the table

  class Packet {
    var frame: Frame

    constructor (f: Frame)
      ensures frame == f
    {
      frame := f;
    }
  }

  ghost function Frames(s: seq<Packet>): (t: seq<Frame>)
    reads s
    ensures |t| == |s| && forall i :: 0 <= i < |s| ==> t[i] == s[i].frame
  {
    seq(|s|, i requires 0 <= i < |s| reads s => s[i].frame)
  }

  ghost predicate DistinctPackets(s: seq<Packet>) {
    forall i, j :: 0 <= i < j < |s| ==> s[i] != s[j]
  }

  class TcpackSup {
    const tbl: array<Packet?>
    var cnt: nat
    ghost var entries: seq<Packet>

    /** The table is a packed prefix of at most four entries, different packets. */
    ghost predicate Shape()
      reads this, tbl
    {
      && tbl.Length == INFO_MAXNUM && cnt == |entries| <= INFO_MAXNUM
      && (forall i :: 0 <= i < INFO_MAXNUM ==> tbl[i] == if i < cnt then entries[i] else null)
      && DistinctPackets(entries)
    }

    ghost predicate Valid()
      reads this, tbl, entries
    {
      Shape() && Distinct(Frames(entries)) == true
    }

    constructor ()
      ensures Valid() && entries == [] && fresh(tbl)
    {
      tbl := new Packet?[INFO_MAXNUM](i => null);
      cnt, entries := 0, [];
    }

    /** The search loop of `dhd_tcpack_suppress`. */
    method Find(flow: (Frame, Frame)) returns (i: nat)
      requires Valid()
      ensures i == Index(Frames(entries), flow)
    {
      i := 0;
      while i < cnt
        invariant i <= cnt
        invariant forall j :: 0 <= j < i ==> Flow(Frames(entries)[j]) != flow
      {
        assert tbl[i] == entries[i] && Frames(entries)[i] == tbl[i].frame;
        if Flow(tbl[i].frame) == flow {
          return;
        }
        i := i + 1;
      }
    }

    /** Replace the datagram of entry i. */
    method Overwrite(i: nat, f: Frame)
      requires Shape() && i < cnt && IsAck(f) && Sane(f) && ETHER_HDR_LEN + Be(f, 16, 2) <= |entries[i].frame|
      modifies entries[i]
      ensures Shape() && Frames(entries) == old(Frames(entries))[i := Patch(old(entries[i].frame), f)]
    {
      var oldpkt: Packet := tbl[i];
      ghost var t := Frames(entries);
      oldpkt.frame := Patch(oldpkt.frame, f);
      assert Frames(entries) == t[i := oldpkt.frame];
    }

    method Append(pkt: Packet)
      requires Shape() && cnt < INFO_MAXNUM && pkt !in entries
      modifies this, tbl
      ensures Shape() && entries == old(entries) + [pkt]
      ensures Frames(entries) == old(Frames(entries)) + [pkt.frame]
    {
      ghost var t := Frames(entries);
      tbl[cnt] := pkt;
      cnt := cnt + 1;
      entries := entries + [pkt];
      assert Frames(entries) == t + [pkt.frame];
    }

    /** `dhd_tcpack_suppress` in REPLACE mode. TRUE says that the packet was freed. */
    method Suppress(pkt: Packet) returns (ret: bool)
      requires Valid() && Sane(pkt.frame) && pkt !in entries
      modifies this, tbl, entries
      ensures Valid()
      ensures (ret, Frames(entries)) == Suppressed(old(Frames(entries)), pkt.frame)
      ensures entries == old(entries) || entries == old(entries) + [pkt]
      ensures pkt.frame == old(pkt.frame)
    {
      ret := false;
      SuppressedDistinct(Frames(entries), pkt.frame);
      if !IsAck(pkt.frame) {
        return;
      }
      var i := Find(Flow(pkt.frame));
      if i < cnt {
        ret := Better(i, pkt.frame);
        if ret {
          Overwrite(i, pkt.frame);
        }
      } else if i < INFO_MAXNUM {
        Append(pkt);
      }
    }

    /** The comparisons of the new ACK with the queued one. */
    method Better(i: nat, f: Frame) returns (better: bool)
      requires Valid() && i < cnt == |entries| && IsAck(f) && Sane(f)
      ensures IsAck(Frames(entries)[i]) && better == Replaces(Frames(entries)[i], f)
      ensures better ==> ETHER_HDR_LEN + Be(f, 16, 2) <= |entries[i].frame|
    {
      var oldpkt: Packet := tbl[i];
      assert Frames(entries)[i] == oldpkt.frame;
      better := SeqGt(AckNum(f), AckNum(oldpkt.frame)) && SameLengths(oldpkt.frame, f);
      if better {
        Fits(oldpkt.frame, f);
      }
    }

    /** Entry i leaves the table; the last one takes its place. */
    method Remove(i: nat)
      requires Shape() && i < cnt == |entries|
      modifies this, tbl
      ensures Shape() == true && entries == SwapDrop(old(entries), i)
    {
      if i < cnt - 1 {
        tbl[i] := tbl[cnt - 1];
      }
      tbl[cnt - 1] := null;
      PacketsDrop(entries, i);
      cnt, entries := cnt - 1, SwapDrop(entries, i);
    }

    /** The rest of the table is as it should be. */
    method DropEntry(i: nat)
      requires Valid() && i < cnt
      modifies this, tbl
      ensures Valid() == true && i < |old(entries)| && old(entries)[i] !in entries && entries == SwapDrop(old(entries), i)
    {
      DropDistinct(Frames(entries), i);
      DroppedGone(entries, i);
      FramesDrop(entries, i);
      Remove(i);
    }

    /** `dhd_tcpack_check_xmit`: a packet that is being sent leaves the table. */
    method CheckXmit(pkt: Packet)
      requires Valid()
      modifies this, tbl
      ensures Valid() && pkt !in entries
      ensures pkt !in old(entries) ==> entries == old(entries)
      ensures pkt in old(entries) ==> exists i :: 0 <= i < |old(entries)| && old(entries)[i] == pkt && entries == SwapDrop(old(entries), i)
    {
      if |pkt.frame| < TCPACKSZMIN || |pkt.frame| > TCPACKSZMAX {
        if pkt in entries {
          SizesOk(pkt);
        }
        return;
      }
      var i, tblCnt := 0, cnt;
      while i < tblCnt
        invariant i <= tblCnt == cnt
        invariant forall j :: 0 <= j < i ==> entries[j] != pkt
      {
        if tbl[i] == pkt {
          DropEntry(i);
          return;
        }
        i := i + 1;
      }
    }

    /** No packet of the table has a size the check skips. */
    lemma SizesOk(pkt: Packet)
      requires Valid() && pkt in entries
      ensures TCPACKSZMIN <= |pkt.frame| <= TCPACKSZMAX
    {
      var i :| 0 <= i < |entries| && entries[i] == pkt;
      assert IsAck(Frames(entries)[i]);
    }
  }

  lemma FramesDrop(s: seq<Packet>, i: nat)
    requires i < |s|
    ensures Frames(SwapDrop(s, i)) == SwapDrop(Frames(s), i)
  {
  }

  lemma PacketsDrop(s: seq<Packet>, i: nat)
    requires DistinctPackets(s) && i < |s|
    ensures DistinctPackets(SwapDrop(s, i))
  {
    assert forall j :: 0 <= j < |s| - 1 ==> SwapDrop(s, i)[j] == s[if j == i then |s| - 1 else j];
  }

  lemma DroppedGone(s: seq<Packet>, i: nat)
    requires DistinctPackets(s) && i < |s|
    ensures s[i] !in SwapDrop(s, i)
  {
  }
}
