// What is left of a text: reading off its front, one piece after the other.
module Suffixes {

  /** s is the end of t. */
  predicate Left<T(==)>(t: seq<T>, s: seq<T>) { |s| <= |t| && t[|t| - |s|..] == s }

  /** Where it starts. */
  function Pos<T>(t: seq<T>, s: seq<T>): (p: nat)
    requires Left(t, s)
    ensures p <= |t| && |t| - p == |s|
  {
    |t| - |s|
  }

  lemma Past<T>(t: seq<T>, a: seq<T>, b: seq<T>)
    requires Left(t, a + b)
    ensures Left(t, b) && Pos(t, a + b) + |a| == Pos(t, b) <= |t| && t[Pos(t, a + b)..Pos(t, b)] == a
  {
    var i := |t| - |a + b|;
    assert t[i..][..|a|] == a && t[i..][|a|..] == b;
  }

  lemma PastEach<T>(t: seq<T>, a: seq<T>, b: seq<T>)
    requires Left(t, a + b)
    ensures Left(t, b) && Pos(t, a + b) + |a| == Pos(t, b)
    ensures forall i :: 0 <= i < |a| ==> a[i] == t[Pos(t, a + b) + i]
    ensures forall i :: Pos(t, a + b) <= i < Pos(t, b) ==> t[i] == a[i - Pos(t, a + b)]
  {
    Past(t, a, b);
    var p, q := Pos(t, a + b), Pos(t, b);
    forall i | 0 <= i < |a|
      ensures a[i] == t[p + i]
    {
      assert t[p..q][i] == t[p + i];
    }
  }

  lemma PastOne<T>(t: seq<T>, c: T, b: seq<T>)
    requires Left(t, [c] + b)
    ensures Left(t, b) && Pos(t, [c] + b) + 1 == Pos(t, b) <= |t| && t[Pos(t, [c] + b)] == c
  {
    Past(t, [c], b);
    assert t[Pos(t, [c] + b)..Pos(t, b)][0] == c;
  }

  lemma AllLeft<T>(t: seq<T>)
    ensures Left(t, t) && Pos(t, t) == 0
  {
  }
}
