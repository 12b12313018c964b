/**
  The two-level bitmap id allocator (bcmutils.c). A set bit of `ids` is a free id;
  a set bit of `wds` is a word of `ids` that still holds a free id; `cnt` and
  `ifree` are redundant counters.
 */
module MwbMap {
  import opened Bits

  const INVALID_IDX: nat := 0xFFFFFFFF
  const WORDS_MAX: nat := 2048
  const WDMAP_MAX: nat := 64

  datatype Map = Map(ids: seq<bv32>, wds: seq<bv32>, cnt: seq<int>, ifree: int, total: nat)

  function WordsFor(n: nat): nat {
    (n + 31) / 32
  }

  /** Bit i of a bitmap spread over words. */
  predicate BitAt(s: seq<bv32>, i: nat) {
    i / 32 < |s| && Bit(s[i / 32], i % 32)
  }

  /** The abstract allocator: the set of free ids. */
  ghost function FreeSet(ids: seq<bv32>): set<nat> {
    set i: nat | i < 32 * |ids| && BitAt(ids, i)
  }

  function Sum(ids: seq<bv32>, n: nat): nat
    requires n <= |ids|
  {
    if n == 0 then 0 else Sum(ids, n - 1) + Pop(ids[n - 1])
  }

  // ---------------------------------------------------------------- the invariant

  ghost predicate Sizes(m: Map) {
    && m.total <= 65535 && |m.ids| == WordsFor(m.total) <= WORDS_MAX
    && |m.wds| == WDMAP_MAX && |m.cnt| == WORDS_MAX
  }

  ghost predicate InRange(m: Map) {
    forall i: nat :: BitAt(m.ids, i) ==> i < m.total
  }

  ghost predicate Counts(m: Map)
    requires Sizes(m)
  {
    forall w :: 0 <= w < |m.ids| ==> m.cnt[w] == Pop(m.ids[w])
  }

  /** A bit of the first level is set iff its word is nonzero. */
  ghost predicate FirstLevel(ids: seq<bv32>, wds: seq<bv32>)
    requires WordsFor(|ids|) <= |wds|
  {
    forall w: nat :: w < 32 * WordsFor(|ids|) ==> (BitAt(wds, w) <==> w < |ids| && ids[w] != 0)
  }

  ghost predicate Inv(m: Map) {
    Sizes(m) && InRange(m) && Counts(m) && FirstLevel(m.ids, m.wds) && m.ifree == Sum(m.ids, |m.ids|)
  }

  // ---------------------------------------------------------------- changing one bit

  /** `t` is `s` with bit b of word w inverted. */
  ghost predicate Flips(s: seq<bv32>, t: seq<bv32>, w: nat, b: nat) {
    && w < |s| == |t| && b < 32
    && (forall v :: 0 <= v < |s| && v != w ==> t[v] == s[v])
    && (forall j: nat :: Bit(t[w], j) == if j == b then !Bit(s[w], j) else Bit(s[w], j))
  }

  /** `t` is `s` with bit b of word w set. */
  ghost predicate Sets(s: seq<bv32>, t: seq<bv32>, w: nat, b: nat) {
    && w < |s| == |t| && b < 32
    && (forall v :: 0 <= v < |s| && v != w ==> t[v] == s[v])
    && (forall j: nat :: Bit(t[w], j) == (j == b || Bit(s[w], j)))
  }

  lemma XorFlips(s: seq<bv32>, w: nat, m: bv32, b: nat)
    requires w < |s| && b < 32 && IsMask(m, b)
    ensures Flips(s, s[w := s[w] ^ m], w, b)
  {
    forall j: nat ensures Bit(s[w] ^ m, j) == if j == b then !Bit(s[w], j) else Bit(s[w], j) {
      BitXor(s[w], m, b, j);
    }
  }

  lemma OrSets(s: seq<bv32>, w: nat, m: bv32, b: nat)
    requires w < |s| && b < 32 && IsMask(m, b)
    ensures Sets(s, s[w := s[w] | m], w, b)
  {
    var t := s[w := s[w] | m];
    forall j: nat ensures Bit(t[w], j) == (j == b || Bit(s[w], j)) {
      BitOr(s[w], m, b, j);
    }
  }

  /** `a[w] ^= m`. */
  method XorWord(a: array<bv32>, w: nat, m: bv32, ghost b: nat)
    requires w < a.Length && b < 32 && IsMask(m, b)
    modifies a
    ensures Flips(old(a[..]), a[..], w, b)
  {
    XorFlips(a[..], w, m, b);
    a[w] := a[w] ^ m;
  }

  /** `a[w] |= m`. */
  method OrWord(a: array<bv32>, w: nat, m: bv32, ghost b: nat)
    requires w < a.Length && b < 32 && IsMask(m, b)
    modifies a
    ensures Sets(old(a[..]), a[..], w, b)
  {
    OrSets(a[..], w, m, b);
    a[w] := a[w] | m;
  }

  lemma FlipAt(s: seq<bv32>, t: seq<bv32>, w: nat, b: nat)
    requires Flips(s, t, w, b)
    ensures forall i: nat :: BitAt(t, i) == if i == 32 * w + b then !BitAt(s, i) else BitAt(s, i)
  {
  }

  lemma SetAt(s: seq<bv32>, t: seq<bv32>, w: nat, b: nat)
    requires Sets(s, t, w, b)
    ensures forall i: nat :: BitAt(t, i) == (i == 32 * w + b || BitAt(s, i))
  {
  }

  lemma FlipFreeSet(s: seq<bv32>, t: seq<bv32>, w: nat, b: nat)
    requires Flips(s, t, w, b)
    ensures FreeSet(t) == if Bit(s[w], b) then FreeSet(s) - {32 * w + b} else FreeSet(s) + {32 * w + b}
  {
    FlipAt(s, t, w, b);
  }

  lemma FlipPop(s: seq<bv32>, t: seq<bv32>, w: nat, b: nat)
    requires Flips(s, t, w, b)
    ensures Pop(t[w]) == if Bit(s[w], b) then Pop(s[w]) - 1 else Pop(s[w]) + 1
  {
    if Bit(s[w], b) {
      PopDiffers(s[w], t[w], b, 32);
    } else {
      PopDiffers(t[w], s[w], b, 32);
    }
  }

  lemma {:induction false} FlipSum(s: seq<bv32>, t: seq<bv32>, w: nat, b: nat, n: nat)
    requires Flips(s, t, w, b) && n <= |s|
    ensures Sum(t, n) == Sum(s, n) + if n <= w then 0 else if Bit(s[w], b) then -1 else 1
    decreases n
  {
    if n > 0 {
      FlipSum(s, t, w, b, n - 1);
      if n - 1 == w {
        FlipPop(s, t, w, b);
      }
    }
  }

  /** What taking or giving back id 32w + b does to the second level and the counters. */
  ghost predicate Moved(m: Map, m': Map, w: nat, b: nat)
    requires Inv(m) && w < |m.ids|
  {
    && Flips(m.ids, m'.ids, w, b)
    && m'.total == m.total && |m'.wds| == |m.wds|
    && var d := if Bit(m.ids[w], b) then -1 else 1;
       m'.cnt == m.cnt[w := m.cnt[w] + d] && m'.ifree == m.ifree + d
  }

  /** If the first level is right as well, the invariant holds again. */
  lemma MoveKeeps(m: Map, m': Map, w: nat, b: nat)
    requires Inv(m) && w < |m.ids| && Moved(m, m', w, b)
    requires 32 * w + b < m.total
    requires FirstLevel(m'.ids, m'.wds)
    ensures Inv(m')
    ensures FreeSet(m'.ids) == if Bit(m.ids[w], b) then FreeSet(m.ids) - {32 * w + b} else FreeSet(m.ids) + {32 * w + b}
  {
    FlipFreeSet(m.ids, m'.ids, w, b);
    FlipPop(m.ids, m'.ids, w, b);
    FlipSum(m.ids, m'.ids, w, b, |m.ids|);
    FlipAt(m.ids, m'.ids, w, b);
  }

  /** Inverting the first-level bit of w where the word became zero. */
  lemma TakeFirstLevel(ids: seq<bv32>, ids': seq<bv32>, wds: seq<bv32>, wds': seq<bv32>, w: nat, b: nat)
    requires WordsFor(|ids|) <= |wds| == |wds'| && FirstLevel(ids, wds)
    requires Flips(ids, ids', w, b) && Bit(ids[w], b)
    requires if ids'[w] == 0 then Flips(wds, wds', w / 32, w % 32) else wds' == wds
    ensures FirstLevel(ids', wds')
  {
    NoBits(b);
    if ids'[w] == 0 {
      FlipAt(wds, wds', w / 32, w % 32);
    }
  }

  /** Setting the first-level bit of w when one of its ids came back. */
  lemma GiveFirstLevel(ids: seq<bv32>, ids': seq<bv32>, wds: seq<bv32>, wds': seq<bv32>, w: nat, b: nat)
    requires WordsFor(|ids|) <= |wds| == |wds'| && FirstLevel(ids, wds)
    requires Flips(ids, ids', w, b) && !Bit(ids[w], b)
    requires Sets(wds, wds', w / 32, w % 32)
    ensures FirstLevel(ids', wds')
  {
    NoBits(b);
    SetAt(wds, wds', w / 32, w % 32);
  }

  /** What the updates of an allocation do. */
  ghost predicate Took(m: Map, m': Map, w: nat, b: nat)
  {
    && w < |m.ids| == |m'.ids| && w < |m.cnt| == |m'.cnt| && w / 32 < |m.wds| == |m'.wds|
    && Flips(m.ids, m'.ids, w, b) && m'.total == m.total
    && (if m'.cnt[w] == 0 then Flips(m.wds, m'.wds, w / 32, w % 32) else m'.wds == m.wds)
    && m'.cnt == m.cnt[w := m.cnt[w] - 1] && m'.ifree == m.ifree - 1
  }

  /** What the updates of a free do. */
  ghost predicate Gave(m: Map, m': Map, w: nat, b: nat)
  {
    && w < |m.ids| == |m'.ids| && w < |m.cnt| == |m'.cnt| && w / 32 < |m.wds| == |m'.wds|
    && Sets(m.ids, m'.ids, w, b) && m'.total == m.total
    && Sets(m.wds, m'.wds, w / 32, w % 32)
    && m'.cnt == m.cnt[w := m.cnt[w] + 1] && m'.ifree == m.ifree + 1
  }

  /** Taking id 32w + b: the counters go down, the first level follows when the word is used up. */
  lemma TakeKeeps(m: Map, m': Map, w: nat, b: nat)
    requires Inv(m) && Took(m, m', w, b) == true && Bit(m.ids[w], b)
    ensures Inv(m') && FreeSet(m'.ids) == FreeSet(m.ids) - {32 * w + b}
  {
    FlipPop(m.ids, m'.ids, w, b);
    PopZero(m'.ids[w]);
    TakeFirstLevel(m.ids, m'.ids, m.wds, m'.wds, w, b);
    BitFree(m.ids, w, b);
    MoveKeeps(m, m', w, b);
  }

  lemma GiveKeeps(m: Map, m': Map, w: nat, b: nat)
    requires Inv(m) && Gave(m, m', w, b) && !Bit(m.ids[w], b) && 32 * w + b < m.total
    ensures Inv(m') && FreeSet(m'.ids) == FreeSet(m.ids) + {32 * w + b}
  {
    GiveFirstLevel(m.ids, m'.ids, m.wds, m'.wds, w, b);
    MoveKeeps(m, m', w, b);
  }

  lemma BitFree(ids: seq<bv32>, w: nat, b: nat)
    requires w < |ids| && b < 32
    ensures BitAt(ids, 32 * w + b) == Bit(ids[w], b)
  {
    assert (32 * w + b) / 32 == w && (32 * w + b) % 32 == b;
  }

  // ---------------------------------------------------------------- finding the smallest free id

  lemma WordBits(w: bv32, j: nat)
    ensures w != 0 ==> Lowest(w) < 32 && Bit(w, Lowest(w)) && (j < Lowest(w) ==> !Bit(w, j))
    ensures w == 0 ==> !Bit(w, j)
  {
    if w != 0 {
      LowestBit(w);
      MaskPos(w & -w, Lowest(w));
      if j < Lowest(w) {
        LowestIsLeast(w, j);
      }
    } else {
      NoBits(j);
    }
  }

  /** The words before the `at`-th of the first level are all zero. */
  ghost predicate Skipped(wds: seq<bv32>, at: nat)
    requires at <= |wds|
  {
    forall v :: 0 <= v < at ==> wds[v] == 0
  }

  lemma NoneFree(m: Map)
    requires Inv(m) && Skipped(m.wds, WordsFor(|m.ids|))
    ensures FreeSet(m.ids) == {} && m.ifree == 0
  {
    forall w | 0 <= w < |m.ids| ensures m.ids[w] == 0 {
      NoBits(w % 32);
    }
    forall i: nat | i < 32 * |m.ids| ensures !BitAt(m.ids, i) {
      NoBits(i % 32);
    }
    ZeroSum(m.ids, |m.ids|);
  }

  lemma {:induction false} ZeroSum(ids: seq<bv32>, n: nat)
    requires n <= |ids| && forall w :: 0 <= w < n ==> ids[w] == 0
    ensures Sum(ids, n) == 0
  {
    if n > 0 {
      PopZero(0);
      ZeroSum(ids, n - 1);
    }
  }

  /** The lowest bit of the first nonzero word is the first bit set in the whole bitmap. */
  lemma FirstSet(s: seq<bv32>, at: nat)
    requires at < |s| && Skipped(s, at) && s[at] != 0
    ensures var r := 32 * at + Lowest(s[at]);
      r / 32 == at && r % 32 == Lowest(s[at]) && BitAt(s, r) && forall i: nat :: i < r ==> !BitAt(s, i)
  {
    WordBits(s[at], 0);
    var r := 32 * at + Lowest(s[at]);
    assert r / 32 == at && r % 32 == Lowest(s[at]);
    forall i: nat | i < r ensures !BitAt(s, i) {
      NoBits(i % 32);
      if i / 32 == at {
        WordBits(s[at], i % 32);
      }
    }
  }

  /** The lowest bit of the first level names the first word that is not empty. */
  lemma FirstWordOf(m: Map, at: nat) returns (w: nat)
    requires Inv(m) && at < WordsFor(|m.ids|) && Skipped(m.wds, at) && m.wds[at] != 0
    ensures w == 32 * at + Lowest(m.wds[at]) && w % 32 == Lowest(m.wds[at])
    ensures w < |m.ids| && m.ids[w] != 0 && Skipped(m.ids, w)
  {
    FirstSet(m.wds, at);
    w := 32 * at + Lowest(m.wds[at]);
    assert w < |m.ids| && m.ids[w] != 0;
    forall v: nat | v < w ensures m.ids[v] == 0 {
      assert !BitAt(m.wds, v);
    }
  }

  /** Both levels together lead to the smallest free id. */
  lemma SmallestFree(m: Map, at: nat)
    requires Inv(m) && at < WordsFor(|m.ids|) && Skipped(m.wds, at) && m.wds[at] != 0
    ensures var w := 32 * at + Lowest(m.wds[at]);
      && w < |m.ids| && m.ids[w] != 0 && w % 32 == Lowest(m.wds[at])
      && var r := 32 * w + Lowest(m.ids[w]);
         BitAt(m.ids, r) && forall i: nat :: i < r ==> !BitAt(m.ids, i)
  {
    var w := FirstWordOf(m, at);
    FirstSet(m.ids, w);
  }

  lemma LeastFree(m: Map, w: nat, b: nat)
    requires Inv(m) && w < |m.ids| && b < 32 && Bit(m.ids[w], b)
    requires forall i: nat :: i < 32 * w + b ==> !BitAt(m.ids, i)
    ensures IsLeast(FreeSet(m.ids), 32 * w + b) && 32 * w + b < m.total
  {
    BitFree(m.ids, w, b);
  }

  ghost predicate IsLeast(s: set<nat>, r: nat) {
    r in s && forall i :: i in s ==> r <= i
  }

  lemma FreeIndex(ids: seq<bv32>, i: nat)
    requires i < 32 * |ids|
    ensures i / 32 < |ids| && 32 * (i / 32) + i % 32 == i
    ensures i in FreeSet(ids) <==> Bit(ids[i / 32], i % 32)
  {
  }

  // ---------------------------------------------------------------- counting free ids

  ghost function FreeBelow(ids: seq<bv32>, k: nat): set<nat> {
    set i: nat | i < k && BitAt(ids, i)
  }

  lemma FreeBelowStep(ids: seq<bv32>, k: nat)
    ensures |FreeBelow(ids, k + 1)| == |FreeBelow(ids, k)| + if BitAt(ids, k) then 1 else 0
  {
    if BitAt(ids, k) {
      assert FreeBelow(ids, k + 1) == FreeBelow(ids, k) + {k};
    } else {
      assert FreeBelow(ids, k + 1) == FreeBelow(ids, k);
    }
  }

  lemma {:induction false} FreeBelowWord(ids: seq<bv32>, w: nat, n: nat)
    requires w < |ids| && n <= 32
    ensures |FreeBelow(ids, 32 * w + n)| == |FreeBelow(ids, 32 * w)| + PopIn(ids[w], n)
    decreases n
  {
    if n > 0 {
      FreeBelowWord(ids, w, n - 1);
      FreeBelowStep(ids, 32 * w + n - 1);
    }
  }

  lemma {:induction false} FreeBelowSum(ids: seq<bv32>, n: nat)
    requires n <= |ids|
    ensures |FreeBelow(ids, 32 * n)| == Sum(ids, n)
  {
    if n > 0 {
      FreeBelowSum(ids, n - 1);
      FreeBelowWord(ids, n - 1, 32);
    } else {
      assert FreeBelow(ids, 0) == {};
    }
  }

  /** `ifree` is the number of free ids, all of them below `total`. */
  lemma FreeCount(m: Map)
    requires Inv(m)
    ensures |FreeSet(m.ids)| == m.ifree
    ensures forall i :: i in FreeSet(m.ids) ==> i < m.total
  {
    FreeBelowSum(m.ids, |m.ids|);
    assert FreeSet(m.ids) == FreeBelow(m.ids, 32 * |m.ids|);
  }

  // ---------------------------------------------------------------- setting up

  /** Exactly the first n bits of a word are set. */
  ghost predicate Low(w: bv32, n: nat) {
    forall j :: 0 <= j < 32 ==> (Bit(w, j) <==> j < n)
  }

  lemma FullWord()
    ensures Low(0xFFFFFFFF, 32) && Pop(0xFFFFFFFF) == 32
  {
    forall j | 0 <= j < 32 ensures Bit(0xFFFFFFFF, j) {
      AllOnes(j);
    }
    PopBelow(0xFFFFFFFF, 32, 32);
  }

  /** `*p ^= ~0U << extra` on a word of ones; ~0U << extra is -(1U << extra). */
  method TrimWord(w: bv32, extra: nat) returns (r: bv32)
    requires w == 0xFFFFFFFF && extra < 32
    ensures Low(r, extra) && Pop(r) == extra
  {
    var m := Shl1(extra);
    r := w ^ -m;
    FlipHigh(m);
    forall j | 0 <= j < 32 ensures Bit(r, j) <==> j < extra {
      BelowMask(m, extra, j);
    }
    PopBelow(r, extra, 32);
  }

  /** The words of a bitmap in which exactly the first n bits are set. */
  ghost predicate FirstBits(s: seq<bv32>, n: nat)
  {
    && WordsFor(n) <= |s|
    && (forall w :: 0 <= w < n / 32 ==> s[w] == 0xFFFFFFFF)
    && (n % 32 != 0 ==> Low(s[n / 32], n % 32) && Pop(s[n / 32]) == n % 32)
  }

  /** One level of `bcm_mwbmap_init`: words of ones, the last one trimmed. */
  method FillBits(a: array<bv32>, n: nat)
    requires WordsFor(n) <= a.Length
    modifies a
    ensures FirstBits(a[..], n)
  {
    var words := WordsFor(n);
    for w := 0 to words
      invariant forall v :: 0 <= v < w ==> a[v] == 0xFFFFFFFF
    {
      a[w] := 0xFFFFFFFF;
    }
    if n % 32 != 0 {
      a[words - 1] := TrimWord(a[words - 1], n % 32);
    }
  }

  lemma FirstBitsAt(s: seq<bv32>, n: nat, i: nat)
    requires FirstBits(s, n) && i < 32 * WordsFor(n)
    ensures BitAt(s, i) <==> i < n
  {
    FullWord();
  }

  /** In such a bitmap every word but those beyond the end is nonzero, with the expected count. */
  lemma FirstBitsWord(s: seq<bv32>, n: nat, w: nat)
    requires FirstBits(s, n) && w < WordsFor(n)
    ensures s[w] != 0 && Pop(s[w]) == if w < n / 32 then 32 else n % 32
  {
    FullWord();
    PopZero(s[w]);
  }

  lemma {:induction false} FirstBitsSum(s: seq<bv32>, n: nat, w: nat)
    requires FirstBits(s, n) && w <= WordsFor(n)
    ensures Sum(s, w) == if w <= n / 32 then 32 * w else n
    decreases w
  {
    if w > 0 {
      FirstBitsSum(s, n, w - 1);
      FirstBitsWord(s, n, w - 1);
    }
  }

  lemma FirstBitsFree(s: seq<bv32>, n: nat)
    requires FirstBits(s, n) && |s| == WordsFor(n)
    ensures forall i: nat :: i in FreeSet(s) <==> i < n
  {
    forall i: nat | i < 32 * |s| ensures BitAt(s, i) <==> i < n {
      FirstBitsAt(s, n, i);
    }
  }

  /** A freshly set up allocator has all its ids free. */
  lemma InitValid(m: Map)
    requires Sizes(m) && m.ifree == m.total
    requires FirstBits(m.ids, m.total) && FirstBits(m.wds, |m.ids|)
    requires forall w :: 0 <= w < |m.ids| ==> m.cnt[w] == if w < m.total / 32 then 32 else m.total % 32
    ensures Inv(m) && forall i: nat :: i in FreeSet(m.ids) <==> i < m.total
  {
    FirstBitsFree(m.ids, m.total);
    forall w: nat | w < 32 * WordsFor(|m.ids|)
      ensures BitAt(m.wds, w) <==> w < |m.ids| && m.ids[w] != 0
    {
      FirstBitsAt(m.wds, |m.ids|, w);
      if w < |m.ids| {
        FirstBitsWord(m.ids, m.total, w);
      }
    }
    forall w | 0 <= w < |m.ids| ensures m.cnt[w] == Pop(m.ids[w]) {
      FirstBitsWord(m.ids, m.total, w);
    }
    FirstBitsSum(m.ids, m.total, |m.ids|);
  }

  // ---------------------------------------------------------------- the allocator

  class BcmMwbmap {
    var wmaps: nat
    var imaps: nat
    var ifree: int
    var total: nat
    const wdBitmap: array<bv32>
    const wdCount: array<int>
    const idBitmap: array<bv32>

    ghost function Abs(): Map
      reads this, wdBitmap, wdCount, idBitmap
    {
      Map(idBitmap[..], wdBitmap[..], wdCount[..], ifree, total)
    }

    ghost predicate Separate() {
      wdBitmap != idBitmap && wdCount as object != wdBitmap && wdCount as object != idBitmap
    }

    ghost predicate Valid()
      reads this, wdBitmap, wdCount, idBitmap
    {
      && Separate()
      && imaps == idBitmap.Length && wmaps == WordsFor(imaps)
      && Inv(Abs())
    }

    ghost function Free(): set<nat>
      reads this, wdBitmap, wdCount, idBitmap
    {
      FreeSet(idBitmap[..])
    }

    /**
      `bcm_mwbmap_init`. The source accepts 64 K ids, but `total` is 16 bits wide:
      only up to 65535 is the result an allocator. With 65536 every id is free, yet none may be
      given back, because all fail the assertion on the total.
     */
    constructor (itemsMax: nat)
      requires itemsMax <= 65536
      ensures itemsMax <= 65535 ==> Valid() && total == itemsMax
      ensures itemsMax == 65536 ==> !Valid() && forall i: nat :: !Known(i)
      ensures forall i: nat :: i in Free() <==> i < itemsMax
      ensures fresh(wdBitmap) && fresh(wdCount) && fresh(idBitmap)
    {
      wdBitmap := new bv32[WDMAP_MAX](i => 0);
      wdCount := new int[WORDS_MAX](i => 0);
      idBitmap := new bv32[WordsFor(itemsMax)](i => 0);
      imaps := WordsFor(itemsMax);
      wmaps := WordsFor(WordsFor(itemsMax));
      ifree := itemsMax;
      total := itemsMax % 65536;
      new;
      FillBits(idBitmap, itemsMax);
      FillBits(wdBitmap, imaps);
      SetCounts(itemsMax);
      Ready(itemsMax);
    }

    /** Both levels full. */
    ghost predicate AllSet(itemsMax: nat)
      reads this, wdBitmap, wdCount, idBitmap
    {
      && imaps == idBitmap.Length == WordsFor(itemsMax) && wmaps == WordsFor(imaps)
      && wdCount.Length == WORDS_MAX && wdBitmap.Length == WDMAP_MAX
      && total == itemsMax % 65536 && ifree == itemsMax
      && FirstBits(idBitmap[..], itemsMax) && FirstBits(wdBitmap[..], imaps)
      && forall w :: 0 <= w < imaps ==> wdCount[w] == if w < itemsMax / 32 then 32 else itemsMax % 32
    }

    lemma Ready(itemsMax: nat)
      requires itemsMax <= 65536 && Separate() && AllSet(itemsMax)
      ensures itemsMax <= 65535 ==> Valid() && total == itemsMax
      ensures itemsMax == 65536 ==> !Valid() && forall i: nat :: !Known(i)
      ensures forall i: nat :: i in Free() <==> i < itemsMax
    {
      FirstBitsFree(idBitmap[..], itemsMax);
      if itemsMax <= 65535 {
        InitValid(Abs());
      }
    }

    method SetCounts(itemsMax: nat)
      requires imaps == WordsFor(itemsMax) <= wdCount.Length == WORDS_MAX
      modifies wdCount
      ensures forall w :: 0 <= w < imaps ==> wdCount[w] == if w < itemsMax / 32 then 32 else itemsMax % 32
    {
      for w := 0 to imaps
        invariant forall v :: 0 <= v < w ==> wdCount[v] == 32
      {
        wdCount[w] := 32;
      }
      if itemsMax % 32 != 0 {
        wdCount[imaps - 1] := itemsMax % 32;
      }
    }

    /** The allocation loop's search for a word of the first level with a bit set. */
    method FirstWord() returns (wordix: nat)
      requires Valid()
      ensures wordix <= wmaps && Skipped(wdBitmap[..], wordix)
      ensures wordix < wmaps ==> wdBitmap[wordix] != 0
    {
      wordix := 0;
      while wordix < wmaps && wdBitmap[wordix] == 0
        invariant wordix <= wmaps && Skipped(wdBitmap[..], wordix)
      {
        wordix := wordix + 1;
      }
    }

    /** `bcm_mwbmap_alloc`: the smallest free id, or INVALID_IDX when there is none. */
    method Alloc() returns (r: nat)
      requires Valid()
      modifies this`ifree, wdBitmap, wdCount, idBitmap
      ensures Valid()
      ensures old(Free()) == {} ==> r == INVALID_IDX && Free() == {} && ifree == 0
      ensures old(Free()) != {} ==>
        IsLeast(old(Free()), r) && r < total && Free() == old(Free()) - {r}
    {
      var wordix := FirstWord();
      if wordix < wmaps {
        r := AllocIn(wordix);
      } else {
        NoneFree(Abs());
        r := INVALID_IDX;
      }
    }

    method AllocIn(at: nat) returns (r: nat)
      requires Valid() && at < wmaps && Skipped(wdBitmap[..], at) && wdBitmap[at] != 0
      modifies this`ifree, wdBitmap, wdCount, idBitmap
      ensures Valid() && IsLeast(old(Free()), r) && r < total && Free() == old(Free()) - {r}
    {
      var w, first, bitmap, bitix := Smallest(at);
      r := 32 * w + bitix;
      ghost var f := Free();
      assert IsLeast(f, r);
      Take(w, first, bitmap, bitix, r);
    }

    /** Isolate the lowest bit of a nonzero word and find its position. */
    static method LowBit(word: bv32) returns (bitmap: bv32, bitix: nat)
      requires word != 0
      ensures bitix == Lowest(word) < 32 && IsMask(bitmap, bitix) && Bit(word, bitix)
    {
      bitmap := word & -word;
      LowestBit(word);
      var zeros := CountLeadingZeros(bitmap);
      bitix := 31 - zeros;
    }

    /** From the first nonzero word of the first level down to the smallest free id. */
    method Smallest(at: nat) returns (w: nat, first: bv32, bitmap: bv32, bitix: nat)
      requires Valid() && at < wmaps && Skipped(wdBitmap[..], at) && wdBitmap[at] != 0
      ensures w < imaps && IsMask(first, w % 32)
      ensures bitix < 32 && IsMask(bitmap, bitix) && Bit(idBitmap[w], bitix)
      ensures IsLeast(Free(), 32 * w + bitix) && 32 * w + bitix < total
    {
      ghost var m := Abs();
      SmallestFree(m, at);
      var firstix;
      first, firstix := LowBit(wdBitmap[at]);
      w := 32 * at + firstix;
      bitmap, bitix := LowBit(idBitmap[w]);
      LeastFree(m, w, bitix);
    }

    /** The updates of an allocation: counters, first level, second level. */
    method ClearBits(w: nat, first: bv32, bitmap: bv32, ghost bitix: nat)
      requires w < wdCount.Length && w < idBitmap.Length && w / 32 < wdBitmap.Length && Separate()
      requires IsMask(first, w % 32) && bitix < 32 && IsMask(bitmap, bitix)
      modifies this`ifree, wdBitmap, wdCount, idBitmap
      ensures Took(old(Abs()), Abs(), w, bitix)
    {
      wdCount[w] := wdCount[w] - 1;
      if wdCount[w] == 0 {
        XorWord(wdBitmap, w / 32, first, w % 32);
      }
      ifree := ifree - 1;
      XorWord(idBitmap, w, bitmap, bitix);
    }

    /** The updates of a free. */
    method SetBits(w: nat, first: bv32, bitmap: bv32, ghost bitix: nat)
      requires w < wdCount.Length && w < idBitmap.Length && w / 32 < wdBitmap.Length && Separate()
      requires IsMask(first, w % 32) && bitix < 32 && IsMask(bitmap, bitix)
      modifies this`ifree, wdBitmap, wdCount, idBitmap
      ensures Gave(old(Abs()), Abs(), w, bitix)
    {
      ifree := ifree + 1;
      OrWord(idBitmap, w, bitmap, bitix);
      wdCount[w] := wdCount[w] + 1;
      OrWord(wdBitmap, w / 32, first, w % 32);
    }

    /** Take one id out of both levels. */
    method Take(w: nat, first: bv32, bitmap: bv32, ghost bitix: nat, ghost i: nat)
      requires Valid() && w < imaps && bitix < 32 && Bit(idBitmap[w], bitix)
      requires i == 32 * w + bitix && IsMask(first, w % 32) && IsMask(bitmap, bitix)
      modifies this`ifree, wdBitmap, wdCount, idBitmap
      ensures Valid() && Free() == old(Free()) - {i}
    {
      ghost var m := Abs();
      ClearBits(w, first, bitmap, bitix);
      TakeKeeps(m, Abs(), w, bitix);
    }

    /** The assertion on ids in force, free and isfree. */
    predicate Known(bitix: nat)
      reads `total
    {
      bitix < total
    }

    /** `bcm_mwbmap_force`: take a given free id. */
    method Force(bitix: nat)
      requires Valid() && bitix in Free()
      modifies this`ifree, wdBitmap, wdCount, idBitmap
      ensures Valid() && Free() == old(Free()) - {bitix}
    {
      FreeIndex(idBitmap[..], bitix);
      var w := bitix / 32;
      var bitmap := Shl1(bitix % 32);
      var first := Shl1(w % 32);
      Take(w, first, bitmap, bitix % 32, bitix);
    }

    /** Put one id back into both levels. */
    method Give(w: nat, first: bv32, bitmap: bv32, ghost bitix: nat, ghost i: nat)
      requires Valid() && w < imaps && bitix < 32 && !Bit(idBitmap[w], bitix) && 32 * w + bitix < total
      requires i == 32 * w + bitix && IsMask(first, w % 32) && IsMask(bitmap, bitix)
      modifies this`ifree, wdBitmap, wdCount, idBitmap
      ensures Valid() && Free() == old(Free()) + {i}
    {
      ghost var m := Abs();
      SetBits(w, first, bitmap, bitix);
      GiveKeeps(m, Abs(), w, bitix);
    }

    /** `bcm_mwbmap_free`: give back an id that is not free. */
    method FreeIdx(bitix: nat)
      requires Valid() && Known(bitix) && bitix !in Free()
      modifies this`ifree, wdBitmap, wdCount, idBitmap
      ensures Valid() && Free() == old(Free()) + {bitix}
    {
      FreeIndex(idBitmap[..], bitix);
      var w := bitix / 32;
      var bitmap := Shl1(bitix % 32);
      var first := Shl1(w % 32);
      Give(w, first, bitmap, bitix % 32, bitix);
    }

    /** `bcm_mwbmap_isfree`. */
    method IsFreeIdx(bitix: nat) returns (free: bool)
      requires Valid() && Known(bitix)
      ensures free <==> bitix in Free()
    {
      var bitmap := Shl1(bitix % 32);
      free := TestWord(idBitmap[bitix / 32], bitmap, bitix % 32);
    }

    static method TestWord(w: bv32, m: bv32, ghost b: nat) returns (set': bool)
      requires IsMask(m, b)
      ensures set' <==> Bit(w, b)
    {
      set' := w & m != 0;
      BitTest(w, m, b);
    }

    /** The ids counted by the audit before the k-th bit of the first level. */
    ghost function CountedTo(k: nat): nat
      requires imaps <= idBitmap.Length
      reads this, idBitmap
    {
      Sum(idBitmap[..], Min(k, imaps))
    }

    /** One turn of the audit: the count of a word whose first-level bit is set, else nothing. */
    method AuditWord(wordix: nat, bitix: nat, before: nat) returns (freeCnt: nat)
      requires Valid() && wordix < wmaps && bitix < 32
      requires before == CountedTo(32 * wordix + bitix)
      ensures freeCnt == CountedTo(32 * wordix + bitix + 1)
    {
      var w := 32 * wordix + bitix;
      FirstLevelAt(Abs(), wordix, bitix);
      freeCnt := before;
      var mask := Shl1(bitix);
      var present := TestWord(wdBitmap[wordix], mask, bitix);
      if present {
        assert wdCount[w] == Pop(idBitmap[w]);
        assert wdCount[w] != 0;
        freeCnt := freeCnt + wdCount[w];
      }
    }

    /**
      `bcm_mwbmap_audit`: walks the set bits of the first level. Its assertions
      hold, and the counts it adds up come to `ifree`.
     */
    method Audit() returns (freeCnt: nat)
      requires Valid()
      ensures freeCnt == ifree
    {
      CountedAll();
      freeCnt := 0;
      for wordix := 0 to wmaps
        invariant freeCnt == CountedTo(32 * wordix)
      {
        freeCnt := AuditRow(wordix, freeCnt);
      }
    }

    /** The audit of one word of the first level. */
    method AuditRow(wordix: nat, before: nat) returns (freeCnt: nat)
      requires Valid() && wordix < wmaps && before == CountedTo(32 * wordix)
      ensures freeCnt == CountedTo(32 * (wordix + 1))
    {
      freeCnt := before;
      for bitix := 0 to 32
        invariant freeCnt == CountedTo(32 * wordix + bitix)
      {
        freeCnt := AuditWord(wordix, bitix, freeCnt);
      }
    }

    lemma CountedAll()
      requires Valid()
      ensures CountedTo(0) == 0 && CountedTo(32 * wmaps) == ifree
    {
    }
  }

  function Min(a: nat, b: nat): nat {
    if a < b then a else b
  }

  /** The first level tells which words count. */
  lemma FirstLevelBit(m: Map, wordix: nat, bitix: nat)
    requires Inv(m) && wordix < WordsFor(|m.ids|) && bitix < 32
    ensures var w := 32 * wordix + bitix;
            Bit(m.wds[wordix], bitix) <==> w < |m.ids| && m.ids[w] != 0
  {
    var w := 32 * wordix + bitix;
    assert w / 32 == wordix && w % 32 == bitix;
    assert BitAt(m.wds, w) <==> Bit(m.wds[wordix], bitix);
  }

  lemma SumNext(ids: seq<bv32>, w: nat)
    ensures Sum(ids, Min(w + 1, |ids|)) - Sum(ids, Min(w, |ids|)) == if w < |ids| then Pop(ids[w]) else 0
  {
  }

  /** A word with its first-level bit adds its count to the sum, one without it nothing. */
  lemma FirstLevelAt(m: Map, wordix: nat, bitix: nat)
    requires Inv(m) && wordix < WordsFor(|m.ids|) && bitix < 32
    ensures var w, n := 32 * wordix + bitix, |m.ids|;
            var grown := Sum(m.ids, Min(w + 1, n)) - Sum(m.ids, Min(w, n));
            if Bit(m.wds[wordix], bitix) then w < n && m.cnt[w] == Pop(m.ids[w]) == grown != 0 else grown == 0
  {
    var w := 32 * wordix + bitix;
    FirstLevelBit(m, wordix, bitix);
    SumNext(m.ids, w);
    if w < |m.ids| {
      PopZero(m.ids[w]);
    }
  }
}
