/** Making room in a full queue by dropping a set of IP fragments (dhd_prec_drop_pkts in dhd_common.c). */
module FragDrop {

  /** What `pkt_frag_info` says of a packet. */
  datatype Frag = None | First | Cont | Last

  // ---------------------------------------------------------------- which packets to drop

  /** A packet that ends the search: not a fragment, or a first or last fragment behind a first one. */
  ghost predicate Decides(s: seq<Frag>, i: nat) {
    && i < |s|
    && (s[i] == None || (s[i] in {First, Last} && exists j :: 0 <= j < i && s[j] == First))
  }

  /**
    The segment [lo, hi) to drop is decided by the first packet that ends the search: a packet
    that is not a fragment goes alone; a last fragment takes along everything from the first
    fragment seen; another first fragment dooms what came from the one before it. If nothing
    decides, the head goes.
   */
  ghost predicate Doomed(s: seq<Frag>, lo: nat, hi: nat) {
    if forall i :: 0 <= i < |s| ==> !Decides(s, i) then
      lo == 0 && hi == 1
    else
      exists i :: 0 <= i < |s| && Decides(s, i) && (forall j :: 0 <= j < i ==> !Decides(s, j)) && DoomedBy(s, i, lo, hi)
  }

  ghost predicate DoomedBy(s: seq<Frag>, i: nat, lo: nat, hi: nat)
    requires i < |s|
  {
    if s[i] == None then lo == i && hi == i + 1
    else
      && lo < i && s[lo] == First && hi == (if s[i] == Last then i + 1 else i)
      && (forall j :: 0 <= j < lo ==> s[j] != First)
      && (forall j :: lo < j < i ==> s[j] == Cont)
  }

  /** The loop's search from i, `first` being the first fragment seen, if any. */
  function Search(s: seq<Frag>, i: nat, first: int): (int, int)
    requires i <= |s| && first < i
    decreases |s| - i
  {
    if i == |s| then (0, 1)
    else match s[i]
      case None => (i, i + 1)
      case First => if first >= 0 then (first, i) else Search(s, i + 1, i)
      case Last => if first >= 0 then (first, i + 1) else Search(s, i + 1, first)
      case Cont => Search(s, i + 1, first)
  }

  /** What is known in the middle of the search. */
  ghost predicate Seen(s: seq<Frag>, i: nat, first: int) {
    && i <= |s| && -1 <= first < i
    && (forall j :: 0 <= j < i ==> s[j] != None && !Decides(s, j))
    && (if first >= 0 then s[first] == First && (forall j :: first < j < i ==> s[j] == Cont)
        else true)
    && (forall j :: 0 <= j < i && j < (if first >= 0 then first else i) ==> s[j] != First)
  }

  /** A packet that does not end the search. */
  lemma SeenNext(s: seq<Frag>, i: nat, first: int)
    requires Seen(s, i, first) && i < |s| && s[i] != None && !(s[i] in {First, Last} && first >= 0)
    ensures Seen(s, i + 1, if s[i] == First then i else first)
  {
    assert !Decides(s, i);
  }

  lemma SearchEnds(s: seq<Frag>, i: nat, first: int)
    requires Seen(s, i, first) && i < |s| && (s[i] == None || (s[i] in {First, Last} && first >= 0))
    ensures var (lo, hi) := Search(s, i, first); 0 <= lo < hi <= |s| && Doomed(s, lo, hi)
  {
    var (lo, hi) := Search(s, i, first);
    assert Decides(s, i) && DoomedBy(s, i, lo, hi);
  }

  lemma {:induction false} SearchDooms(s: seq<Frag>, i: nat, first: int)
    requires s != [] && Seen(s, i, first)
    ensures var (lo, hi) := Search(s, i, first); 0 <= lo < hi <= |s| && Doomed(s, lo, hi) == true
    decreases |s| - i
  {
    if i < |s| {
      if s[i] == None || (s[i] in {First, Last} && first >= 0) {
        SearchEnds(s, i, first);
      } else {
        SeenNext(s, i, first);
        SearchDooms(s, i + 1, if s[i] == First then i else first);
      }
    }
  }

  /** The segment is determined. */
  lemma DoomedUnique(s: seq<Frag>, lo: nat, hi: nat, lo': nat, hi': nat)
    requires Doomed(s, lo, hi) && Doomed(s, lo', hi')
    ensures lo == lo' && hi == hi'
  {
    if i :| 0 <= i < |s| && Decides(s, i) {
      var k :| 0 <= k < |s| && Decides(s, k) && (forall j :: 0 <= j < k ==> !Decides(s, j)) && DoomedBy(s, k, lo, hi);
      var k' :| 0 <= k' < |s| && Decides(s, k') && (forall j :: 0 <= j < k' ==> !Decides(s, j)) && DoomedBy(s, k', lo', hi');
      assert k == k';
    }
  }

  // ---------------------------------------------------------------- what the comment says

  /** The first packet that is no fragment, or the end. */
  function FirstNone(s: seq<Frag>): (i: nat)
    ensures i <= |s| && (i < |s| ==> s[i] == None) && forall j :: 0 <= j < i ==> s[j] != None
  {
    if s == [] || s[0] == None then 0 else 1 + FirstNone(s[1..])
  }

  /**
    The comment promises that a packet that is no fragment, wherever it is, goes first. The code
    does so exactly when no fragment set ends the search before that packet is reached.
   */
  lemma CommentHolds(s: seq<Frag>)
    requires FirstNone(s) < |s|
    ensures Search(s, 0, -1) == (FirstNone(s), FirstNone(s) + 1)
       <==> forall j :: 0 <= j < FirstNone(s) ==> !Decides(s, j)
  {
    var n := FirstNone(s);
    var (lo, hi) := Search(s, 0, -1);
    SearchDooms(s, 0, -1);
    assert Decides(s, n);
    if forall j :: 0 <= j < n ==> !Decides(s, j) {
      assert DoomedBy(s, n, n, n + 1);
      DoomedUnique(s, lo, hi, n, n + 1);
    } else {
      var i :| 0 <= i < |s| && Decides(s, i) && (forall j :: 0 <= j < i ==> !Decides(s, j)) && DoomedBy(s, i, lo, hi);
      assert i < n;
    }
  }

  /** A queue for which it does not: the set of two fragments in front is dropped. */
  lemma CommentFails()
    ensures Search([First, Last, None], 0, -1) == (0, 2)
  {
    assert Search([First, Last, None], 1, 0) == (0, 2);
  }

  /** The segment is one whole set: a first fragment, middle ones, a last one. */
  ghost predicate WholeSet(s: seq<Frag>, lo: int, hi: int) {
    && 0 <= lo < hi - 1 < |s| && s[lo] == First && s[hi - 1] == Last
    && forall j :: lo < j < hi - 1 ==> s[j] == Cont
  }

  /** The packet that ends the search. */
  ghost predicate Ends(s: seq<Frag>, k: nat) {
    Decides(s, k) && forall j :: 0 <= j < k ==> !Decides(s, j)
  }

  lemma EndsBy(s: seq<Frag>, lo: nat, hi: nat, k: nat)
    requires Doomed(s, lo, hi) && Ends(s, k)
    ensures DoomedBy(s, k, lo, hi)
  {
  }

  /**
    Otherwise the comment promises that one whole set is dropped. The code does so exactly when
    the packet that ends the search is a last fragment.
   */
  lemma SetWhole(s: seq<Frag>)
    requires s != []
    ensures var (lo, hi) := Search(s, 0, -1); WholeSet(s, lo, hi) <==> exists k: nat :: Ends(s, k) && s[k] == Last
  {
    SearchDooms(s, 0, -1);
    var (lo, hi) := Search(s, 0, -1);
    WholeIff(s, lo, hi);
  }

  lemma WholeIff(s: seq<Frag>, lo: nat, hi: nat)
    requires Doomed(s, lo, hi) && lo < hi <= |s|
    ensures WholeSet(s, lo, hi) <==> exists k: nat :: Ends(s, k) && s[k] == Last
  {
    if k: nat :| Ends(s, k) {
      EndsBy(s, lo, hi, k);
      WholeBy(s, k, lo, hi);
      assert forall l: nat :: Ends(s, l) ==> l == k;
    } else {
      NoneEnds(s);
    }
  }

  /** If nothing ends the search, nothing would. */
  lemma NoneEnds(s: seq<Frag>)
    requires forall k: nat :: !Ends(s, k)
    ensures forall i :: 0 <= i < |s| ==> !Decides(s, i)
  {
    for n := 0 to |s|
      invariant forall i :: 0 <= i < n ==> !Decides(s, i)
    {
      assert !Ends(s, n);
    }
  }

  lemma WholeBy(s: seq<Frag>, k: nat, lo: nat, hi: nat)
    requires k < |s| && Decides(s, k) && DoomedBy(s, k, lo, hi)
    ensures WholeSet(s, lo, hi) <==> s[k] == Last
  {
  }

  /** Queues of fragments alone for which it does not: a set without its end, and a set of which only the head goes. */
  lemma SetCut()
    ensures Search([First, Cont, First], 0, -1) == (0, 2) && Search([First, Cont], 0, -1) == (0, 1)
  {
    assert Search([First, Cont, First], 2, 0) == (0, 2);
    assert Search([First, Cont], 2, 0) == (0, 1);
  }

  // ---------------------------------------------------------------- the queue

  class Pkt {
    const frag: Frag
    var link: Pkt?

    constructor (frag: Frag)
      ensures this.frag == frag && link == null
    {
      this.frag, link := frag, null;
    }
  }

  ghost function Frags(s: seq<Pkt>): (t: seq<Frag>)
    ensures |t| == |s| && forall i :: 0 <= i < |s| ==> t[i] == s[i].frag
  {
    seq(|s|, i requires 0 <= i < |s| => s[i].frag)
  }

  ghost predicate Distinct(s: seq<Pkt>) {
    forall i, j :: 0 <= i < j < |s| ==> s[i] != s[j]
  }

  /** s[at..] is linked from `head`. */
  ghost predicate Linked(head: Pkt?, s: seq<Pkt>, at: nat)
    requires at <= |s|
    reads s
  {
    && head == (if at < |s| then s[at] else null)
    && forall i {:trigger s[i].link} :: at <= i < |s| ==> s[i].link == if i + 1 < |s| then s[i + 1] else null
  }

  /** The links of a queue from which [lo, hi) is being cut. */
  ghost predicate Open(next: Pkt?, s: seq<Pkt>, lo: nat, hi: nat)
    requires lo < hi <= |s|
    reads s
  {
    && Distinct(s) && Linked(next, s, hi)
    && forall i {:trigger s[i].link} :: 0 <= i < lo ==> s[i].link == s[i + 1]
  }

  /** Unlink the packets of a chain from `first` to `last`, and return them in order. */
  method Unlink(first: Pkt, last: Pkt, ghost seg: seq<Pkt>) returns (dropped: seq<Pkt>, next: Pkt?)
    requires seg != [] && first == seg[0] && last == seg[|seg| - 1] && Distinct(seg)
    requires forall i {:trigger seg[i].link} :: 0 <= i < |seg| - 1 ==> seg[i].link == seg[i + 1]
    modifies seg
    ensures dropped == seg && next == old(last.link)
    ensures forall i :: 0 <= i < |seg| ==> seg[i].link == null
  {
    var p: Pkt? := first;
    dropped, next := [], null;
    ghost var i := 0;
    while true
      invariant 0 <= i < |seg| && p == seg[i] && dropped == seg[..i]
      invariant forall j :: 0 <= j < i ==> seg[j].link == null
      invariant forall j {:trigger seg[j].link} :: i <= j < |seg| ==> seg[j].link == old(seg[j].link)
      decreases |seg| - i
    {
      next := p.link;
      p.link := null;
      dropped := dropped + [p];
      if p == last {
        break;
      }
      p := next;
      i := i + 1;
    }
  }

  /** The segment that the search finds; its packets are no others of the queue. */
  lemma DoomedSegment(s: seq<Pkt>, lo: nat, hi: nat)
    requires s != [] && Distinct(s) && (lo, hi) == Search(Frags(s), 0, -1)
    ensures lo < hi <= |s| && Doomed(Frags(s), lo, hi) == true
    ensures Distinct(s[lo..hi]) && forall i :: 0 <= i < |s| && !(lo <= i < hi) ==> s[i] !in s[lo..hi]
  {
    SearchDooms(Frags(s), 0, -1);
  }

  /** One precedence of a queue; `total` is the length over all precedences. */
  class PktqPrec {
    var head: Pkt?
    var tail: Pkt?
    var len: int
    var total: int
    ghost var q: seq<Pkt>

    ghost predicate Valid()
      reads this, q
    {
      && Distinct(q) && Linked(head, q, 0)
      && tail == (if q == [] then null else q[|q| - 1])
      && len == |q|
    }

    /** The search loop: the packets that begin and end the segment, and the one before it. */
    method Choose() returns (first: Pkt, last: Pkt, prevFirst: Pkt?, ghost lo: nat, ghost hi: nat)
      requires Valid() && q != []
      ensures (lo, hi) == Search(Frags(q), 0, -1) && lo < hi <= |q|
      ensures first == q[lo] && last == q[hi - 1] && prevFirst == if lo == 0 then null else q[lo - 1]
    {
      var p, prev: Pkt?, first', last', prev' := head, null, null, null, null;
      var fragInfo := None;
      ghost var i, f := 0, -1;
      while p != null
        invariant Seen(Frags(q), i, f) && Search(Frags(q), 0, -1) == Search(Frags(q), i, f)
        invariant p == (if i < |q| then q[i] else null) && prev == if i == 0 then null else q[i - 1]
        invariant last' == null && first' == if f >= 0 then q[f] else null
        invariant f >= 0 ==> prev' == if f == 0 then null else q[f - 1]
        decreases |q| - i
      {
        fragInfo := p.frag;
        assert Frags(q)[i] == fragInfo;
        if fragInfo == None {
          break;
        } else if fragInfo == First {
          if first' != null {
            last' := prev;
            break;
          }
          first', prev' := p, prev;
          f := i;
        } else if fragInfo == Last && first' != null {
          last' := p;
          break;
        }
        prev := p;
        p := p.link;
        i := i + 1;
      }
      lo, hi := Search(Frags(q), i, f).0, Search(Frags(q), i, f).1;
      if p == null || (fragInfo != None && (first' == null || last' == null)) {
        prev, p, fragInfo := null, head, None;
      }
      if fragInfo == None {
        first', last', prev' := p, p, prev;
      }
      first, last, prevFirst := first', last', prev';
    }

    /** Link what is before the segment to what is behind it. */
    method Close(prevFirst: Pkt?, next: Pkt?, ghost lo: nat, ghost hi: nat)
      requires lo < hi <= |q| && Open(next, q, lo, hi)
      requires head == q[0] && tail == q[|q| - 1] && len == |q| - (hi - lo)
      requires prevFirst == (if lo == 0 then null else q[lo - 1]) && next == if hi < |q| then q[hi] else null
      modifies this`head, this`tail, this`q, if lo > 0 then {q[lo - 1]} else {}
      ensures q == old(q)[..lo] + old(q)[hi..] && Valid()
    {
      if prevFirst == null {
        head := next;
        if next == null {
          tail := null;
        }
      } else {
        prevFirst.link := next;
        if next == null {
          tail := prevFirst;
        }
      }
      q := q[..lo] + q[hi..];
    }

    /** Take the segment from `first` to `last` off the queue. */
    method Remove(first: Pkt, last: Pkt, prevFirst: Pkt?, ghost lo: nat, ghost hi: nat) returns (dropped: seq<Pkt>)
      requires Valid() && lo < hi <= |q| && first == q[lo] && last == q[hi - 1]
      requires prevFirst == if lo == 0 then null else q[lo - 1]
      requires Distinct(q[lo..hi]) && forall i :: 0 <= i < |q| && !(lo <= i < hi) ==> q[i] !in q[lo..hi]
      modifies this, q
      ensures Valid() && dropped == old(q)[lo..hi] && q == old(q)[..lo] + old(q)[hi..]
      ensures total == old(total) - (hi - lo)
      ensures forall i :: 0 <= i < |dropped| ==> dropped[i].link == null
    {
      var next;
      ghost var seg := q[lo..hi];
      dropped, next := Unlink(first, last, seg);
      len, total := len - |dropped|, total - |dropped|;
      assert Open(next, q, lo, hi) by {
        assert q[hi - 1] == last;
        forall i {:trigger q[i].link} | 0 <= i < |q| && !(lo <= i < hi) ensures q[i].link == if i + 1 < |q| then q[i + 1] else null {
          assert q[i] !in seg && q[i].link == old(q[i].link);
        }
      }
      Close(prevFirst, next, lo, hi);
    }

    /** `dhd_prec_drop_pkts`: the callback is given the packets in `dropped`, in order. */
    method Drop() returns (ok: bool, dropped: seq<Pkt>)
      requires Valid()
      modifies this, q
      ensures Valid() && (ok <==> old(q) != [])
      ensures !ok ==> q == old(q) && dropped == [] && total == old(total)
      ensures ok ==> exists lo: nat, hi: nat :: Cut(old(q), lo, hi, dropped, q) && total == old(total) - (hi - lo)
      ensures forall p :: p in dropped ==> p.link == null
    {
      if head == null {
        return false, [];
      }
      ghost var lo, hi;
      var first, last, prevFirst;
      first, last, prevFirst, lo, hi := Choose();
      DoomedSegment(q, lo, hi);
      ghost var s := q;
      dropped := Remove(first, last, prevFirst, lo, hi);
      assert Cut(s, lo, hi, dropped, q);
      ok := true;
    }
  }

  /** The doomed segment is cut out of a queue; the rest keeps its order. */
  ghost predicate Cut(was: seq<Pkt>, lo: nat, hi: nat, dropped: seq<Pkt>, now: seq<Pkt>) {
    && lo < hi <= |was| && Doomed(Frags(was), lo, hi)
    && dropped == was[lo..hi] && now == was[..lo] + was[hi..]
  }
}
