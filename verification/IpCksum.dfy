/** The internet checksum (bcm_ip_cksum in bcmutils.c; sections 1 and 2 of RFC 1071). */
module IpCksum {
  import opened Octets
  import opened Modular

  const M: nat := 0xFFFF
  const WORD: nat := 0x1_0000
  const TWO32: nat := 0x1_0000_0000

  /** A byte in the high half of a 16-bit word. */
  function High(b: Byte): nat {
    var n: nat := b;
    n * 256
  }

  // ---------------------------------------------------------------- one's complement arithmetic

  /** One's complement addition of two 16-bit numbers: the carry goes round to the low end. */
  function OnesAdd(x: nat, y: nat): nat {
    if x + y < WORD then x + y else x + y - M
  }

  /** The one's complement sum of a start value and the 16-bit words of a buffer; an odd last byte is a word's high byte. */
  function OnesSum(start: nat, buf: seq<Byte>): nat
    decreases |buf|
  {
    if |buf| == 0 then start
    else if |buf| == 1 then OnesAdd(start, High(buf[0]))
    else OnesAdd(OnesSum(start, buf[..LastWord(buf)]), WordAt(buf, LastWord(buf)))
  }

  /** Where the last word begins. */
  function LastWord(buf: seq<Byte>): (k: nat)
    requires |buf| > 0
    ensures k < |buf| && k % 2 == 0 && k + 2 >= |buf|
  {
    (|buf| - 1) / 2 * 2
  }

  function WordAt(buf: seq<Byte>, k: nat): (w: nat)
    requires k < |buf|
    ensures w <= M
  {
    High(buf[k]) + if k + 1 < |buf| then buf[k + 1] else 0
  }

  /** The plain sum of the words. */
  function Words(buf: seq<Byte>): nat
    decreases |buf|
  {
    if buf == [] then 0 else Words(buf[..LastWord(buf)]) + WordAt(buf, LastWord(buf))
  }

  /** A number with its carries folded in: 0 only for 0. */
  function Folded(x: nat): (r: nat)
    ensures r <= M
  {
    if x == 0 then 0 else (x - 1) % M + 1
  }

  lemma FoldedUnique(x: nat, r: nat, q: nat)
    requires x == M * q + r && 0 < r <= M
    ensures Folded(x) == r
  {
    ModUnique(x - 1, q, r - 1, M);
  }

  /** Folding in two steps. */
  lemma FoldedAdd(x: nat, y: nat)
    ensures Folded(Folded(x) + y) == Folded(x + y)
  {
    if x > 0 {
      var q := (x - 1) / M;
      assert x == M * q + Folded(x);
      if Folded(x) + y > 0 {
        var p, r := (Folded(x) + y - 1) / M, (Folded(x) + y - 1) % M + 1;
        assert Folded(x) + y == M * p + r;
        assert M * (p + q) == M * p + M * q;
        FoldedUnique(x + y, r, p + q);
      }
    }
  }

  lemma OnesAddFolds(x: nat, y: nat)
    requires x <= M && y <= M
    ensures OnesAdd(x, y) == Folded(x + y)
  {
    if x + y >= WORD {
      FoldedUnique(x + y, x + y - M, 1);
    } else if x + y > 0 {
      FoldedUnique(x + y, x + y, 0);
    }
  }

  lemma FoldedNext(x: nat, w: nat)
    requires w <= M
    ensures Folded(x + w) == OnesAdd(Folded(x), w)
  {
    FoldedAdd(x, w);
    OnesAddFolds(Folded(x), w);
  }

  /** A 16-bit number has no carries. */
  lemma FoldedSmall(x: nat)
    requires x <= M
    ensures Folded(x) == x
  {
  }

  /** The folded plain sum is the one's complement sum. */
  lemma {:induction false} FoldedSum(start: nat, buf: seq<Byte>)
    ensures Folded(start + Words(buf)) == OnesSum(Folded(start), buf)
    ensures OnesSum(Folded(start), buf) <= M
    decreases |buf|
  {
    if buf != [] {
      var k := LastWord(buf);
      FoldedSum(start, buf[..k]);
      FoldedNext(start + Words(buf[..k]), WordAt(buf, k));
      if |buf| == 1 {
        assert buf[..k] == [];
      }
    }
  }

  /** An odd buffer has the sum of the same one with a zero byte behind it. */
  lemma PaddedSum(start: nat, buf: seq<Byte>)
    requires |buf| % 2 == 1
    ensures Words(buf + [0]) == Words(buf) && OnesSum(start, buf + [0]) == OnesSum(start, buf)
  {
    var k := LastWord(buf);
    assert LastWord(buf + [0]) == k && (buf + [0])[..k] == buf[..k];
    assert WordAt(buf + [0], k) == WordAt(buf, k);
    if |buf| == 1 {
      assert buf[..0] == [];
    }
  }

  // ---------------------------------------------------------------- the code

  /** `bcm_ip_cksum` on 32-bit words: the accumulator wraps. */
  method Cksum(buf: seq<Byte>, start: nat) returns (r: nat)
    requires start < TWO32
    ensures r == M - Folded((start + Words(buf)) % TWO32)
  {
    var sum := SumWords(buf, start);
    sum := FoldCarries(sum);
    r := M - sum;
  }

  /** The loop over the words. */
  method SumWords(buf: seq<Byte>, start: nat) returns (sum: nat)
    requires start < TWO32
    ensures sum == (start + Words(buf)) % TWO32
  {
    var i := 0;
    sum := start;
    while |buf| - i > 1
      invariant i <= |buf| && i % 2 == 0
      invariant sum == (start + Words(buf[..i])) % TWO32
    {
      NextWord(buf, i);
      sum := Add32(sum, High(buf[i]) + buf[i + 1], start + Words(buf[..i]));
      i := i + 2;
    }
    if |buf| - i > 0 {
      NextWord(buf, i);
      sum := Add32(sum, High(buf[i]), start + Words(buf[..i]));
    }
    assert buf[..|buf|] == buf;
  }

  /** The loop over the carries. */
  method FoldCarries(x: nat) returns (sum: nat)
    requires x < TWO32
    ensures sum == Folded(x)
  {
    sum := x;
    while sum / WORD != 0
      invariant sum < TWO32 && Folded(sum) == Folded(x)
      decreases sum
    {
      FoldStep(sum);
      sum := sum % WORD + sum / WORD;
    }
    if sum > 0 {
      FoldedUnique(sum, sum, 0);
    }
  }

  /** Adding to the accumulator. */
  function Add32(x: nat, y: nat, ghost total: nat): (r: nat)
    requires x == total % TWO32
    ensures r == (total + y) % TWO32
  {
    (x + y) % TWO32
  }

  lemma NextWord(buf: seq<Byte>, i: nat)
    requires i < |buf| && i % 2 == 0
    ensures var j := if i + 1 < |buf| then i + 2 else i + 1;
      Words(buf[..j]) == Words(buf[..i]) + WordAt(buf, i)
  {
    var j := if i + 1 < |buf| then i + 2 else i + 1;
    assert buf[..j][..i] == buf[..i];
    assert LastWord(buf[..j]) == i;
  }

  lemma FoldStep(sum: nat)
    requires WORD <= sum < TWO32
    ensures 0 < sum % WORD + sum / WORD < sum
    ensures Folded(sum % WORD + sum / WORD) == Folded(sum)
  {
    var h, l := sum / WORD, sum % WORD;
    var q, r := (h + l - 1) / M, (h + l - 1) % M + 1;
    assert sum == M * h + (h + l) && h + l == M * q + r;
    assert M * (h + q) == M * h + M * q;
    FoldedUnique(h + l, r, q);
    FoldedUnique(sum, r, h + q);
  }

  // ---------------------------------------------------------------- what it is good for

  ghost function Result(buf: seq<Byte>, start: nat): nat {
    M - Folded((start + Words(buf)) % TWO32)
  }

  /**
    The result is the complement of the one's complement sum exactly when the 32-bit accumulator
    does not overflow. The carries of the start value count, too.
   */
  lemma Complement(buf: seq<Byte>, start: nat)
    requires start < TWO32 && |buf| < TWO32
    ensures Result(buf, start) == M - OnesSum(Folded(start), buf) <==> start + Words(buf) < TWO32
  {
    FoldedSum(start, buf);
    TotalBound(buf, start);
    WrapShows(start + Words(buf));
  }

  /** The fold tells whether a total has wrapped. */
  lemma WrapShows(total: nat)
    requires total < TWO32 * 0xFFFF
    ensures Folded(total % TWO32) == Folded(total) <==> total < TWO32
  {
    if total >= TWO32 {
      Overflow(total);
    }
  }

  lemma TotalBound(buf: seq<Byte>, start: nat)
    requires start < TWO32 && |buf| < TWO32
    ensures start + Words(buf) < TWO32 * 0xFFFF
  {
    WordsBound(buf);
    var n := (|buf| + 1) / 2;
    assert n <= 0x8000_0000;
  }

  /** It does not for up to 64 KB and a 16-bit start value. */
  lemma ShortComplement(buf: seq<Byte>, start: nat)
    requires start <= M && |buf| <= 0x1_0000
    ensures Result(buf, start) == M - OnesSum(start, buf)
  {
    WordsBound(buf);
    FoldedSmall(start);
    Complement(buf, start);
  }

  /** Every 2^32 lost is one lost, and a 32-bit length cannot lose 65535 of them. */
  lemma Overflow(total: nat)
    requires TWO32 <= total < TWO32 * 0xFFFF
    ensures Folded(total % TWO32) != Folded(total)
  {
    var w, x := total / TWO32, total % TWO32;
    assert total == TWO32 * w + x && 0 < w < 0xFFFF;
    assert TWO32 * w == M * (0x1_0001 * w) + w;
    FoldedCongruent(total);
    FoldedCongruent(x);
    var p, q := FoldCount(total), FoldCount(x);
    assert w == M * (p - q - 0x1_0001 * w) + Folded(total) - Folded(x);
    NotMultiple(w, p - q - 0x1_0001 * w);
  }

  lemma NotMultiple(w: nat, z: int)
    requires 0 < w < M
    ensures w != M * z
  {
  }

  ghost function FoldCount(x: nat): nat {
    if x == 0 then 0 else (x - 1) / M
  }

  lemma FoldedCongruent(x: nat)
    ensures x == M * FoldCount(x) + Folded(x)
  {
  }

  lemma {:induction false} WordsBound(buf: seq<Byte>)
    ensures Words(buf) <= (|buf| + 1) / 2 * M
    decreases |buf|
  {
    if buf != [] {
      WordsBound(buf[..LastWord(buf)]);
    }
  }

  lemma {:induction false} WordsConcat(x: seq<Byte>, y: seq<Byte>)
    requires |x| % 2 == 0
    ensures Words(x + y) == Words(x) + Words(y)
    decreases |y|
  {
    if y == [] {
      assert x + y == x;
    } else {
      WordsConcat(x, y[..LastWord(y)]);
      ConcatLast(x, y);
    }
  }

  lemma ConcatLast(x: seq<Byte>, y: seq<Byte>)
    requires |x| % 2 == 0 && y != []
    ensures LastWord(x + y) == |x| + LastWord(y)
    ensures (x + y)[..LastWord(x + y)] == x + y[..LastWord(y)]
    ensures WordAt(x + y, LastWord(x + y)) == WordAt(y, LastWord(y))
  {
    LastShift(|x|, |y|);
  }

  lemma LastShift(n: nat, m: nat)
    requires n % 2 == 0 && m > 0
    ensures (n + m - 1) / 2 * 2 == n + (m - 1) / 2 * 2
  {
  }

  lemma ResultPlain(buf: seq<Byte>, start: nat)
    requires start + Words(buf) < TWO32
    ensures Result(buf, start) == M - Folded(start + Words(buf))
  {
  }

  /** A sum and its complement fold to all ones, unless they overflow. */
  lemma AllOnes(total: nat)
    requires total < TWO32
    ensures var x := total + M - Folded(total); Folded(x % TWO32) == M <==> x < TWO32
  {
    var x := total + M - Folded(total);
    FoldedCongruent(total);
    FoldedUnique(x, M, FoldCount(total));
    if x >= TWO32 {
      Overflow(x);
    }
  }

  /** Writing a word into a zeroed field at an even place adds it to the sum. */
  lemma Store(buf: seq<Byte>, k: nat, c: nat)
    requires k + 1 < |buf| && k % 2 == 0 && buf[k] == 0 && buf[k + 1] == 0 && c <= M
    ensures Words(buf[k := c / 256][k + 1 := c % 256]) == Words(buf) + c
  {
    var sealed := buf[k := c / 256][k + 1 := c % 256];
    Split(buf, k);
    Split(sealed, k);
    assert buf[..k] == sealed[..k] && buf[k + 2..] == sealed[k + 2..];
  }

  /** Storing the checksum in a zeroed field at an even place makes the checksum of the buffer 0, unless that overflows. */
  lemma StoreVerifies(buf: seq<Byte>, start: nat, k: nat)
    requires k + 1 < |buf| && k % 2 == 0 && buf[k] == 0 && buf[k + 1] == 0
    requires start + Words(buf) < TWO32
    ensures var c := Result(buf, start);
      var sealed := buf[k := c / 256][k + 1 := c % 256];
      Result(sealed, start) == 0 <==> start + Words(sealed) < TWO32
  {
    ResultPlain(buf, start);
    Store(buf, k, Result(buf, start));
    AllOnes(start + Words(buf));
  }

  lemma Split(buf: seq<Byte>, k: nat)
    requires k + 1 < |buf| && k % 2 == 0
    ensures Words(buf) == Words(buf[..k]) + WordAt(buf, k) + Words(buf[k + 2..])
  {
    WordsConcat(buf[..k + 2], buf[k + 2..]);
    assert buf == buf[..k + 2] + buf[k + 2..];
    NextWord(buf, k);
  }

  /** Feeding the complemented result of an even-length prefix as the start value for the rest equals one pass. */
  lemma Chains(x: seq<Byte>, y: seq<Byte>, start: nat)
    requires |x| % 2 == 0 && start + Words(x + y) < TWO32
    ensures Result(y, M - Result(x, start)) == Result(x + y, start)
  {
    WordsConcat(x, y);
    ResultPlain(x + y, start);
    ResultPlain(x, start);
    FoldedAdd(start + Words(x), Words(y));
    FoldedCongruent(start + Words(x));
    ResultPlain(y, Folded(start + Words(x)));
  }
}
