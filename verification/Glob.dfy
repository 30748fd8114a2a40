// The member name pattern of src/dsapi.c: '*' stands for any run of characters,
// '%' for exactly one, everything else for itself.
module Glob {

  /** The textbook recursive definition, on the suffixes pat[p..] and name[n..]. */
  ghost predicate Globs(pat: string, p: nat, name: string, n: nat)
    requires p <= |pat| && n <= |name|
    decreases |pat| - p, |name| - n
  {
    if p == |pat| then
      n == |name|
    else if pat[p] == '*' then
      Globs(pat, p + 1, name, n) || (n < |name| && Globs(pat, p, name, n + 1))
    else
      n < |name| && (pat[p] == '%' || pat[p] == name[n]) && Globs(pat, p + 1, name, n + 1)
  }

  /** The position of the last '*' the loop took, and the name position it stands at. */
  datatype Star = NoStar | Star(p: nat, n: nat)

  ghost predicate Saved(star: Star, pat: string, p: nat, name: string, n: nat)
  {
    star.Star? ==>
      && star.p < p <= |pat| && star.n <= n <= |name|
      && pat[star.p] == '*'
  }

  /** What the loop answers from one of its states: the iterative form as a function. */
  predicate Scan(pat: string, p: nat, name: string, n: nat, star: Star)
    requires p <= |pat| && n <= |name| && Saved(star, pat, p, name, n)
    decreases if star.Star? then |pat| - star.p else |pat| + 1,
              if star.Star? then |name| - star.n else 0,
              |name| - n
  {
    if n == |name| then
      OnlyStars(pat, p)
    else if p < |pat| && (pat[p] == '%' || pat[p] == name[n]) then
      Scan(pat, p + 1, name, n + 1, star)
    else if p < |pat| && pat[p] == '*' then
      Scan(pat, p + 1, name, n, Star(p, n))
    else if star.Star? then
      Scan(pat, star.p + 1, name, star.n + 1, Star(star.p, star.n + 1))
    else
      false
  }

  predicate OnlyStars(pat: string, p: nat)
    requires p <= |pat|
  {
    forall i :: p <= i < |pat| ==> pat[i] == '*'
  }

  /** member_match(): the loop that backtracks to the last '*' only. */
  method MemberMatch(name: string, pat: string) returns (matched: bool)
    ensures matched == Scan(pat, 0, name, 0, NoStar)
    ensures '*' !in name ==> matched == Globs(pat, 0, name, 0)
  {
    if '*' !in name {
      ScanAgrees(pat, name);
    }
    var n: nat, p: nat := 0, 0;
    var star := NoStar;
    while n < |name|
      invariant 0 <= p <= |pat| && 0 <= n <= |name| && Saved(star, pat, p, name, n)
      invariant Scan(pat, p, name, n, star) == Scan(pat, 0, name, 0, NoStar)
      decreases if star.Star? then |pat| - star.p else |pat| + 1,
                if star.Star? then |name| - star.n else 0,
                |name| - n
    {
      if p < |pat| && (pat[p] == '%' || pat[p] == name[n]) {
        p := p + 1;
        n := n + 1;
      } else if p < |pat| && pat[p] == '*' {
        star := Star(p, n);
        p := p + 1;
      } else if star.Star? {
        p := star.p + 1;
        star := Star(star.p, star.n + 1);
        n := star.n;
      } else {
        return false;
      }
    }
    ghost var rest := p;
    while p < |pat| && pat[p] == '*'
      invariant rest <= p <= |pat|
      invariant forall i :: rest <= i < p ==> pat[i] == '*'
    {
      p := p + 1;
    }
    matched := p == |pat|;
  }

  // --- why the last star is enough -----------------------------------------

  /** A pattern that starts with '*' also matches every longer name suffix. */
  lemma {:induction false} StarAbsorbs(pat: string, p: nat, name: string, n: nat, k: nat)
    requires p < |pat| && pat[p] == '*' && n <= k <= |name|
    requires Globs(pat, p, name, k)
    ensures Globs(pat, p, name, n)
    decreases k - n
  {
    if n < k {
      StarAbsorbs(pat, p, name, n + 1, k);
    }
  }

  /** pat[q..] matches some suffix of the name from n on. */
  ghost predicate Ahead(pat: string, q: nat, name: string, n: nat)
    requires q <= |pat|
  {
    exists k :: n <= k <= |name| && Globs(pat, q, name, k)
  }

  /** A '*' matches exactly when what follows it matches some later suffix. */
  lemma {:induction false} StarMeansSome(pat: string, p: nat, name: string, n: nat)
    requires p < |pat| && n <= |name| && pat[p] == '*'
    ensures Globs(pat, p, name, n) <==> Ahead(pat, p + 1, name, n)
    decreases |name| - n
  {
    if n < |name| {
      StarMeansSome(pat, p, name, n + 1);
      assert Ahead(pat, p + 1, name, n) <==> Globs(pat, p + 1, name, n) || Ahead(pat, p + 1, name, n + 1);
    }
  }

  /** A star-free stretch of pattern consumes exactly its own length of name. */
  lemma {:induction false} StretchConsumes(pat: string, p: nat, q: nat, name: string, n: nat)
    requires p <= q <= |pat| && n <= |name|
    requires forall i :: p <= i < q ==> pat[i] != '*'
    requires Globs(pat, p, name, n)
    ensures n + (q - p) <= |name| && Globs(pat, q, name, n + (q - p))
    decreases q - p
  {
    if p < q {
      StretchConsumes(pat, p + 1, q, name, n + 1);
    }
  }

  /** The stretch behind the saved star is star-free and as long as the name it stands against. */
  ghost predicate Aligned(star: Star, pat: string, p: nat, n: nat)
    requires p <= |pat|
  {
    star.Star? ==>
      && star.p < p && n - star.n == p - star.p - 1
      && forall i :: star.p < i < p ==> pat[i] != '*'
  }

  /** Some later position of the saved star still leads to a match. */
  ghost predicate Retry(pat: string, name: string, star: Star)
  {
    star.Star? && star.p < |pat| && Ahead(pat, star.p + 1, name, star.n + 1)
  }

  /** Taking a new star makes every retry of the older one pointless. */
  lemma NewStarCoversOld(pat: string, p: nat, name: string, n: nat, star: Star)
    requires p < |pat| && n <= |name| && pat[p] == '*'
    requires Saved(star, pat, p, name, n) && Aligned(star, pat, p, n)
    requires Retry(pat, name, star)
    ensures Globs(pat, p, name, n)
  {
    var k :| star.n < k <= |name| && Globs(pat, star.p + 1, name, k);
    StretchConsumes(pat, star.p + 1, p, name, k);
    StarAbsorbs(pat, p, name, n, k + (p - star.p - 1));
  }

  lemma {:induction false} StarsMatchNothing(pat: string, p: nat, name: string)
    requires p <= |pat|
    ensures Globs(pat, p, name, |name|) <==> OnlyStars(pat, p)
    decreases |pat| - p
  {
    if p < |pat| {
      StarsMatchNothing(pat, p + 1, name);
    }
  }

  /** At the end of the name, whatever a retry could still reach is reached without it. */
  lemma NoRetryAtEnd(pat: string, p: nat, name: string, star: Star)
    requires p <= |pat| && Saved(star, pat, p, name, |name|) && Aligned(star, pat, p, |name|)
    ensures !Retry(pat, name, star)
  {
    if Retry(pat, name, star) {
      var k :| star.n < k <= |name| && Globs(pat, star.p + 1, name, k);
      StretchConsumes(pat, star.p + 1, p, name, k);
      assert false;
    }
  }

  /** The loop decides: either from here, or from a later position of the last star. */
  lemma {:induction false} ScanDecides(pat: string, p: nat, name: string, n: nat, star: Star)
    requires '*' !in name
    requires p <= |pat| && n <= |name|
    requires Saved(star, pat, p, name, n) && Aligned(star, pat, p, n)
    ensures Scan(pat, p, name, n, star) <==> Globs(pat, p, name, n) || Retry(pat, name, star)
    decreases if star.Star? then |pat| - star.p else |pat| + 1,
              if star.Star? then |name| - star.n else 0,
              |name| - n
  {
    if n == |name| {
      StarsMatchNothing(pat, p, name);
      NoRetryAtEnd(pat, p, name, star);
    } else if p < |pat| && (pat[p] == '%' || pat[p] == name[n]) {
      assert name[n] in name;
      ScanDecides(pat, p + 1, name, n + 1, star);
    } else if p < |pat| && pat[p] == '*' {
      ScanDecides(pat, p + 1, name, n, Star(p, n));
      StarMeansSome(pat, p, name, n);
      if Retry(pat, name, star) {
        NewStarCoversOld(pat, p, name, n, star);
      }
    } else if star.Star? {
      ScanDecides(pat, star.p + 1, name, star.n + 1, Star(star.p, star.n + 1));
      assert Ahead(pat, star.p + 1, name, star.n + 1) <==>
             Globs(pat, star.p + 1, name, star.n + 1) || Ahead(pat, star.p + 1, name, star.n + 2);
    }
  }

  /** The iterative matcher answers what the recursive definition does, for every name without '*'. */
  lemma ScanAgrees(pat: string, name: string)
    requires '*' !in name
    ensures Scan(pat, 0, name, 0, NoStar) == Globs(pat, 0, name, 0)
  {
    ScanDecides(pat, 0, name, 0, NoStar);
  }

  // --- and exactly for those names ------------------------------------------

  /** A literal prefix of the pattern that equals the name is consumed without a star. */
  lemma {:induction false} LiteralPrefix(pat: string, name: string, k: nat, i: nat)
    requires i <= k <= |pat| && k <= |name|
    requires forall j :: 0 <= j < k ==> pat[j] == name[j]
    ensures Scan(pat, i, name, i, NoStar) == Scan(pat, k, name, k, NoStar)
    decreases k - i
  {
    if i < k {
      LiteralPrefix(pat, name, k, i + 1);
    }
  }

  lemma {:induction false} LiteralGlobs(pat: string, name: string, k: nat, i: nat)
    requires i <= k <= |pat| && k <= |name|
    requires forall j :: i <= j < k ==> pat[j] == name[j] && pat[j] != '*'
    requires Globs(pat, k, name, k)
    ensures Globs(pat, i, name, i)
    decreases k - i
  {
    if i < k {
      LiteralGlobs(pat, name, k, i + 1);
    }
  }

  function FirstStar(name: string): (k: nat)
    requires '*' in name
    ensures k < |name| && name[k] == '*' && '*' !in name[..k]
  {
    if name[0] == '*' then 0
    else
      var k := 1 + FirstStar(name[1..]);
      assert name[..k] == [name[0]] + name[1..][..k - 1];
      k
  }

  /** The pattern a name with a '*' in it is judged wrongly by. */
  function Witness(name: string): string
    requires '*' in name
  {
    var k := FirstStar(name);
    if k + 1 < |name| then name[..k] + "*" else name[..k] + "*%"
  }

  lemma WitnessFails(name: string)
    requires '*' in name
    ensures var pat := Witness(name);
            Scan(pat, 0, name, 0, NoStar) != Globs(pat, 0, name, 0)
  {
    var k := FirstStar(name);
    var pat := Witness(name);
    assert forall j :: 0 <= j < k ==> pat[j] == name[..k][j] == name[j];
    LiteralPrefix(pat, name, k, 0);
    if k + 1 < |name| {
      assert !Scan(pat, k + 1, name, k + 1, NoStar);
      StarsMatchNothing(pat, k + 1, name);
      StarMeansSome(pat, k, name, k);
    } else {
      assert !Scan(pat, k + 1, name, k + 1, NoStar);
      assert Globs(pat, k + 2, name, k + 1);
      assert Globs(pat, k + 1, name, k);
    }
    assert Globs(pat, k, name, k);
    LiteralGlobs(pat, name, k, 0);
  }

  /**
   * The exact scope of the matcher: it follows the definition for every pattern
   * if and only if the name holds no '*' of its own.
   */
  lemma MatcherExact(name: string)
    ensures (forall pat :: Scan(pat, 0, name, 0, NoStar) == Globs(pat, 0, name, 0)) <==> '*' !in name
  {
    if '*' in name {
      WitnessFails(name);
    } else {
      forall pat {
        ScanAgrees(pat, name);
      }
    }
  }
}
