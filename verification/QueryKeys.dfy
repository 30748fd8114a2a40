// Names in the host's collating order, and the keys clients page by: src/dsapi.c.
// A char is a byte of the host's code page.
module QueryKeys {
  import opened Texts
  import opened Wrappers

  const BLANK := ' '

  // --- the order of names ------------------------------------------------------------------

  /** strcmp() < 0; for names of one length, memcmp() < 0. */
  predicate Before(a: string, b: string)
    decreases |a|
  {
    b != [] && (a == [] || a[0] < b[0] || (a[0] == b[0] && Before(a[1..], b[1..])))
  }

  lemma {:induction false} Trichotomy(a: string, b: string)
    ensures Before(a, b) || Before(b, a) || a == b
    ensures !(Before(a, b) && Before(b, a)) && (a == b ==> !Before(a, b))
    decreases |a|
  {
    if a != [] && b != [] {
      Trichotomy(a[1..], b[1..]);
      assert a == [a[0]] + a[1..] && b == [b[0]] + b[1..];
    }
  }

  lemma {:induction false} Transitive(a: string, b: string, c: string)
    requires Before(a, b) && (Before(b, c) || b == c)
    ensures Before(a, c)
    decreases |a|
  {
    if a != [] && c != [] && b != c && a[0] == b[0] == c[0] {
      Transitive(a[1..], b[1..], c[1..]);
    }
  }

  // --- keys ----------------------------------------------------------------------------------

  /** toupper() of the host's locale. */
  type Upper = char -> char

  function Folded(s: string, up: Upper): (t: string)
    ensures |t| == |s| && forall i :: 0 <= i < |s| ==> t[i] == up(s[i])
  {
    seq(|s|, i requires 0 <= i < |s| => up(s[i]))
  }

  /** A key; cut: the value did not fit, and the key is the front of it. */
  datatype Key = Key(text: string, cut: bool)

  /** make_query_key() as a function; max: the longest key. No key: list everything. */
  function QueryKey(value: Option<string>, max: nat, up: Upper): (k: Option<Key>)
    ensures k.Some? ==> |k.value.text| <= max
  {
    if value.None? || TrimRight(value.value) == [] then None else
    var v := Folded(TrimRight(value.value), up);
    Some(if |v| > max then Key(v[..max], true) else Key(v, false))
  }

  /** make_query_key(), into a buffer of one more than the longest key. */
  method MakeQueryKey(value: Option<string>, key: array<char>, up: Upper) returns (have: bool, n: nat, truncated: bool)
    requires key.Length > 0
    modifies key
    ensures var k := QueryKey(value, key.Length - 1, up);
            && have == k.Some?
            && (have ==> n < key.Length && key[n] == '\0' && k == Some(Key(key[..n], truncated)))
            && (!have ==> !truncated && key[..] == old(key[..]))
  {
    if value.None? {
      return false, 0, false;
    }
    var s := value.value;
    n := TrimmedLength(s);
    if n == 0 {
      return false, 0, false;
    }
    ghost var v := Folded(TrimRight(s), up);
    truncated := false;
    if n > key.Length - 1 {
      n, truncated := key.Length - 1, true;
    }
    for i := 0 to n
      invariant forall j :: 0 <= j < i ==> key[j] == v[j]
    {
      key[i] := up(s[i]);
    }
    assert key[..n] == v[..n];
    assert !truncated ==> v[..n] == v;
    key[n] := '\0';
    have := true;
  }

  // --- a page's names -----------------------------------------------------------------------

  /** dslist_in_page() of a name, and the skip of member_scan(). */
  predicate InPage(name: string, key: Option<Key>)
  {
    key.None? || !(Before(name, key.value.text) || (key.value.cut && name == key.value.text))
  }

  /** A name no longer than a key is before the whole value exactly if it is no later than its front. */
  lemma {:induction false} CutValue(name: string, v: string, max: nat)
    requires |name| <= max < |v|
    ensures Before(name, v) <==> Before(name, v[..max]) || name == v[..max]
    decreases |name|
  {
    var p := v[..max];
    if name != [] {
      assert p[1..] == v[1..][..max - 1];
      CutValue(name[1..], v[1..], max - 1);
      assert name == [name[0]] + name[1..] && p == [p[0]] + p[1..];
    } else {
      assert max == 0 ==> p == [];
    }
  }

  /** An over-long start value, cut, selects the data sets the whole value would. */
  lemma CutSelectsSame(name: string, value: string, max: nat, up: Upper)
    requires |name| <= max
    ensures var k := QueryKey(Some(value), max, up);
            k.Some? ==> (InPage(name, k) <==> !Before(name, Folded(TrimRight(value), up)))
  {
    var v := Folded(TrimRight(value), up);
    if |v| > max {
      CutValue(name, v, max);
    }
  }

  // --- blank padding ---------------------------------------------------------------------------

  function Blanks(n: nat): (s: string)
    ensures |s| == n && forall i :: 0 <= i < n ==> s[i] == BLANK
  {
    seq(n, i => BLANK)
  }

  function Padded(s: string, n: nat): (t: string)
    ensures |s| <= n ==> |t| == n
  {
    if |s| < n then s + Blanks(n - |s|) else s
  }

  lemma {:induction false} BeforeSums(a: string, x: string, p: string, y: string)
    requires |a| == |p|
    ensures Before(a + x, p + y) <==> Before(a, p) || (a == p && Before(x, y))
    decreases |a|
  {
    if a == [] {
      assert a + x == x && p + y == y;
    } else {
      assert (a + x)[1..] == a[1..] + x && (p + y)[1..] == p[1..] + y;
      BeforeSums(a[1..], x, p[1..], y);
      assert a == [a[0]] + a[1..] && p == [p[0]] + p[1..];
    }
  }

  /** Whether a name, padded to any length, is before a value that does not fit it. */
  predicate PaddedBefore(name: string, v: string) { Before(Padded(name, |v|), v) }

  /**
   * For blank-padded names the same holds exactly if the value goes on behind its
   * front with something above blanks.
   */
  lemma CutPaddedExact(v: string, max: nat)
    requires max < |v|
    ensures (forall name: string :: |name| == max ==>
               (InPage(name, Some(Key(v[..max], true))) <==> !PaddedBefore(name, v)))
       <==> Before(Blanks(|v| - max), v[max..])
  {
    var p, y := v[..max], v[max..];
    assert v == p + y;
    forall name: string | |name| == max
      ensures PaddedBefore(name, v) <==> Before(name, p) || (name == p && Before(Blanks(|v| - max), y))
    {
      BeforeSums(name, Blanks(|v| - max), p, y);
    }
    Trichotomy(p, p);
    assert !InPage(p, Some(Key(p, true)));
  }

  /** So it does whenever the value has no character below the blank. */
  lemma {:induction false} AboveBlanks(y: string)
    requires y != [] && y[|y| - 1] != BLANK && forall i :: 0 <= i < |y| ==> y[i] >= BLANK
    ensures Before(Blanks(|y|), y)
    decreases |y|
  {
    if y[0] == BLANK {
      assert Blanks(|y|)[1..] == Blanks(|y| - 1);
      AboveBlanks(y[1..]);
    }
  }
}
