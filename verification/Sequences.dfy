/** Facts about sequences that several modules use. */
module Sequences {

  ghost function Without<T>(s: seq<T>, at: nat): (r: seq<T>)
    requires at < |s|
    ensures |r| == |s| - 1
  {
    s[..at] + s[at + 1..]
  }

  lemma StillIn<T>(s: seq<T>, at: nat, x: T)
    requires at < |s| && x in s && x != s[at]
    ensures x in Without(s, at)
  {
    var i :| 0 <= i < |s| && s[i] == x;
    var t := Without(s, at);
    assert t[if i < at then i else i - 1] == x;
  }

  lemma Assoc<T>(a: seq<T>, b: seq<T>, c: seq<T>)
    ensures a + b + c == a + (b + c)
  {
  }
}
