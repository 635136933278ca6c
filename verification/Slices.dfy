/** A sequence lying inside a larger one at a known position. */
module Slices {
  /** `buf` holds exactly `xs` from position `at` on. */
  ghost predicate Holds<T>(buf: seq<T>, at: nat, xs: seq<T>) {
    at + |xs| <= |buf| && buf[at..at + |xs|] == xs
  }

  lemma HoldsSplit<T>(buf: seq<T>, at: nat, a: seq<T>, b: seq<T>)
    requires Holds(buf, at, a + b)
    ensures Holds(buf, at, a) && Holds(buf, at + |a|, b)
  {
    var ab := buf[at..at + |a + b|];
    assert ab[..|a|] == a && ab[|a|..] == b;
    assert buf[at..at + |a|] == ab[..|a|];
    assert buf[at + |a|..at + |a| + |b|] == ab[|a|..];
  }

  lemma HoldsJoin<T>(buf: seq<T>, at: nat, a: seq<T>, b: seq<T>)
    requires Holds(buf, at, a) && Holds(buf, at + |a|, b)
    ensures Holds(buf, at, a + b)
  {
    assert buf[at..at + |a + b|] == buf[at..at + |a|] + buf[at + |a|..at + |a| + |b|];
  }

  lemma HoldsSlice<T>(buf: seq<T>, from: nat, to: nat)
    requires from <= to <= |buf|
    ensures Holds(buf, from, buf[from..to])
  {
  }

  lemma HoldsFits<T>(buf: seq<T>, at: nat, xs: seq<T>)
    requires Holds(buf, at, xs)
    ensures at + |xs| <= |buf| && buf[at..at + |xs|] == xs
  {
  }

  lemma HoldsWhole<T>(buf: seq<T>)
    ensures Holds(buf, 0, buf)
  {
  }
}
