// Whether a request's If-Match header admits the current ETag: etag_matches() of src/etag.c.
module IfMatch {
  import opened Wrappers
  import Checksums

  const ETAG_LEN := 16

  predicate IsPad(c: char) { c == ' ' || c == '\t' }

  /** etag_fold() */
  function Fold(c: char): char { if 'a' <= c <= 'f' then (c as int - 'a' as int + 'A' as int) as char else c }

  // --- what the header admits ------------------------------------------------------------

  /** The first comma from p on, or the end. */
  function CommaFrom(h: string, p: nat): (q: nat)
    requires p <= |h|
    ensures p <= q <= |h| && (forall k :: p <= k < q ==> h[k] != ',') && (q < |h| ==> h[q] == ',')
    decreases |h| - p
  {
    if p < |h| && h[p] != ',' then CommaFrom(h, p + 1) else p
  }

  function PadFrom(h: string, p: nat): (q: nat)
    requires p <= |h|
    ensures p <= q <= |h| && (forall k :: p <= k < q ==> IsPad(h[k])) && (q < |h| ==> !IsPad(h[q]))
    decreases |h| - p
  {
    if p < |h| && IsPad(h[p]) then PadFrom(h, p + 1) else p
  }

  /** The first quote, or the end. */
  function QuoteFrom(h: string, p: nat): (q: nat)
    requires p <= |h|
    ensures p <= q <= |h| && (forall k :: p <= k < q ==> h[k] != '"') && (q < |h| ==> h[q] == '"')
    decreases |h| - p
  {
    if p < |h| && h[p] != '"' then QuoteFrom(h, p + 1) else p
  }

  /** The value is the tag, letters of either case, and padding. */
  predicate SameTag(v: string, etag: string)
  {
    && |v| >= ETAG_LEN && |etag| >= ETAG_LEN
    && (forall i :: 0 <= i < ETAG_LEN ==> Fold(v[i]) == Fold(etag[i]))
    && forall i :: ETAG_LEN <= i < |v| ==> IsPad(v[i])
  }

  /** An entry without its weak mark and its opening quote. */
  function Unmarked(e: string): string
  {
    var v := if "W/" <= e then e[2..] else e;
    if v != "" && v[0] == '"' then v[1..] else v
  }

  /** An entry of the list admits the tag: the wildcard, or a value that is the tag. */
  predicate Admits(e: string, etag: string)
  {
    e != "" && (e[0] == '*' || SameTag(Unmarked(e)[..QuoteFrom(Unmarked(e), 0)], etag))
  }

  /** The entry that starts at s, its leading padding gone. */
  function EntryAt(h: string, s: nat): string
    requires s <= |h|
  {
    var e := h[s..CommaFrom(h, s)];
    e[PadFrom(e, 0)..]
  }

  predicate Starts(h: string, s: nat)
    requires s <= |h|
  {
    s == 0 || h[s - 1] == ','
  }

  /** Some entry of the comma-separated list admits the tag. */
  ghost predicate Matches(h: string, etag: string)
  {
    exists s :: 0 <= s <= |h| && Starts(h, s) && Admits(EntryAt(h, s), etag)
  }

  // --- the cursor ------------------------------------------------------------------------

  /** No entry that starts in front of p admits the tag. */
  ghost predicate NoneBefore(h: string, etag: string, p: nat)
  {
    forall s :: 0 <= s < p && s <= |h| && Starts(h, s) ==> !Admits(EntryAt(h, s), etag)
  }

  function CharAt(h: string, p: nat): char { if p < |h| then h[p] else '\0' }

  /** Blanks, tabs and commas are passed; start is where the entry reached starts. */
  method SkipSeparators(h: string, from: nat, etag: string) returns (p: nat, ghost start: nat)
    requires from <= |h| && '\0' !in h
    requires if from == 0 then true else from == |h| || h[from] == ','
    requires NoneBefore(h, etag, if from == 0 then 0 else from + 1)
    ensures from <= p <= |h| && start <= |h|
    ensures p == |h| ==> NoneBefore(h, etag, |h| + 1)
    ensures p < |h| ==>
              && start <= p && Starts(h, start) && NoneBefore(h, etag, start)
              && !IsPad(h[p]) && h[p] != ',' && forall k :: start <= k < p ==> IsPad(h[k])
  {
    hide Admits;
    p := from;
    start := if from == 0 then 0 else from + 1;
    while p < |h| && (IsPad(h[p]) || h[p] == ',')
      invariant from <= p <= |h|
      invariant NoneBefore(h, etag, start)
      invariant if start <= p then Starts(h, start) && forall k :: start <= k < p ==> IsPad(h[k])
                else start == p + 1 && (p < |h| ==> h[p] == ',')
    {
      if h[p] == ',' && start <= p {
        PaddingAdmitsNothing(h, start, p, etag);
        start := p + 1;
      }
      p := p + 1;
    }
    if p == |h| {
      if start <= p {
        PaddingAdmitsNothing(h, start, p, etag);
      }
      start := 0;
    }
  }

  /** An entry of nothing but padding. */
  lemma PaddingAdmitsNothing(h: string, s: nat, p: nat, etag: string)
    requires s <= p <= |h| && (p == |h| || h[p] == ',') && NoneBefore(h, etag, s)
    requires forall k :: s <= k < p ==> IsPad(h[k])
    ensures NoneBefore(h, etag, p + 1)
  {
    EntryEnds(h, s, p, p);
    assert forall k :: s <= k < p ==> h[k] != ',';
    forall i | 0 <= i < p + 1 && Starts(h, i)
      ensures !Admits(EntryAt(h, i), etag)
    {
      assert i <= s;
    }
  }

  lemma EntryEnds(h: string, s: nat, p: nat, e: nat)
    requires s <= p <= e <= |h| && (e == |h| || h[e] == ',') && forall k :: s <= k < e ==> h[k] != ','
    requires (forall k :: s <= k < p ==> IsPad(h[k])) && (p < e ==> !IsPad(h[p]))
    ensures CommaFrom(h, s) == e && EntryAt(h, s) == h[p..e]
  {
    assert CommaFrom(h, s) == e;
    var entry := h[s..e];
    assert forall k :: 0 <= k < |entry| ==> entry[k] == h[s + k];
    PadIs(entry, p - s);
    assert entry[p - s..] == h[p..e];
  }

  lemma PadIs(e: string, k: nat)
    requires k <= |e| && (forall i :: 0 <= i < k ==> IsPad(e[i])) && (k < |e| ==> !IsPad(e[k]))
    ensures PadFrom(e, 0) == k
  {
  }

  /** The comparison, as far as the value and the tag go. */
  method SameValue(v: string, etag: string) returns (same: bool)
    ensures same <==> SameTag(v, etag)
  {
    var i := 0;
    while i < ETAG_LEN && i < |v| && i < |etag| && Fold(v[i]) == Fold(etag[i])
      invariant 0 <= i <= ETAG_LEN && i <= |v| && i <= |etag|
      invariant forall k :: 0 <= k < i ==> Fold(v[k]) == Fold(etag[k])
    {
      i := i + 1;
    }
    if i < ETAG_LEN {
      return false;
    }
    while i < |v| && IsPad(v[i])
      invariant ETAG_LEN <= i <= |v| && forall k :: ETAG_LEN <= k < i ==> IsPad(v[k])
    {
      i := i + 1;
    }
    return i == |v|;
  }

  /** A value ends at a quote, a comma or the end. */
  method ValueEnd(h: string, from: nat) returns (p: nat)
    requires from <= |h|
    ensures from <= p <= CommaFrom(h, from) && p - from == QuoteFrom(h[from..CommaFrom(h, from)], 0)
  {
    ghost var e := CommaFrom(h, from);
    p := from;
    while p < |h| && h[p] != ',' && h[p] != '"'
      invariant from <= p <= e && forall k :: from <= k < p ==> h[k] != '"'
    {
      p := p + 1;
    }
    ghost var v := h[from..e];
    assert forall k :: 0 <= k < |v| ==> v[k] == h[from + k];
    QuoteIs(v, p - from);
  }

  lemma QuoteIs(v: string, k: nat)
    requires k <= |v| && (k < |v| ==> v[k] == '"') && forall i :: 0 <= i < k ==> v[i] != '"'
    ensures QuoteFrom(v, 0) == k
  {
  }

  lemma CommaStays(h: string, p: nat, q: nat)
    requires p <= |h| && p <= q <= CommaFrom(h, p)
    ensures CommaFrom(h, q) == CommaFrom(h, p)
  {
  }

  /** The weak mark and the opening quote. */
  method SkipMarks(h: string, from: nat) returns (p: nat)
    requires from < |h| && h[from] != ','
    ensures from <= p <= CommaFrom(h, from) && h[p..CommaFrom(h, from)] == Unmarked(h[from..CommaFrom(h, from)])
  {
    ghost var e := CommaFrom(h, from);
    ghost var entry := h[from..e];
    p := from;
    if h[p] == 'W' && CharAt(h, p + 1) == '/' {
      p := p + 2;
    }
    WeakMark(h, from, e);
    assert h[p..e] == if "W/" <= entry then entry[2..] else entry;
    if CharAt(h, p) == '"' {
      p := p + 1;
    }
  }

  lemma WeakMark(h: string, p: nat, e: nat)
    requires p < e <= |h| && (e < |h| ==> h[e] == ',')
    ensures "W/" <= h[p..e] <==> h[p] == 'W' && CharAt(h, p + 1) == '/'
  {
    var entry := h[p..e];
    assert entry[0] == h[p] && (|entry| > 1 ==> entry[1] == h[p + 1]);
    assert |entry| > 1 ==> entry[..2] == [entry[0], entry[1]];
  }

  /** The entry at from, which is no separator: whether it admits the tag, and the comma behind it. */
  method CheckEntry(h: string, from: nat, etag: string) returns (admits: bool, p: nat)
    requires from < |h| && h[from] != ','
    ensures admits <==> Admits(h[from..CommaFrom(h, from)], etag)
    ensures !admits ==> p == CommaFrom(h, from)
  {
    hide SameTag, Unmarked;
    ghost var e := CommaFrom(h, from);
    assert e > from && h[from..e][0] == h[from];
    if h[from] == '*' {
      return true, from;
    }
    var val := SkipMarks(h, from);
    CommaStays(h, from, val);
    p := ValueEnd(h, val);
    assert h[val..e][..p - val] == h[val..p];
    admits := SameValue(h[val..p], etag);
    if admits {
      return;
    }
    while p < |h| && h[p] != ','
      invariant val <= p <= e
    {
      p := p + 1;
    }
  }

  /** etag_matches() */
  method EtagMatches(header: Option<string>, etag: Option<string>) returns (matches: bool)
    requires header.Some? ==> '\0' !in header.value
    ensures matches <==> header.Some? && etag.Some? && Matches(header.value, etag.value)
  {
    hide Admits;
    if header.None? || etag.None? {
      return false;
    }
    var h, tag := header.value, etag.value;
    var p := 0;
    while p < |h|
      invariant p <= |h| && (p == 0 || p == |h| || h[p] == ',')
      invariant NoneBefore(h, tag, if p == 0 then 0 else p + 1)
      decreases |h| - p
    {
      var q;
      ghost var start;
      q, start := SkipSeparators(h, p, tag);
      if q == |h| {
        return false;
      }
      var admits;
      ghost var e := CommaFrom(h, q);
      EntryEnds(h, start, q, e);
      admits, p := CheckEntry(h, q, tag);
      if admits {
        return true;
      }
      OneMore(h, tag, start, e);
    }
    NothingAdmitted(h, tag);
    return false;
  }

  lemma NothingAdmitted(h: string, etag: string)
    ensures |h| == 0 ==> !Matches(h, etag)
  {
  }

  lemma OneMore(h: string, etag: string, s: nat, e: nat)
    requires s <= e <= |h| && NoneBefore(h, etag, s) && !Admits(EntryAt(h, s), etag)
    requires forall k :: s <= k < e ==> h[k] != ','
    ensures NoneBefore(h, etag, e + 1)
  {
    hide Admits;
  }

  // --- the list, entry by entry ------------------------------------------------------------------

  /** One character, or one hexadecimal letter in either case. */
  ghost predicate SameCase(a: char, b: char)
  {
    a == b || exists n :: 0 <= n < 6 && (a == "abcdef"[n] || a == "ABCDEF"[n]) && (b == "abcdef"[n] || b == "ABCDEF"[n])
  }

  lemma HexLetters(n: nat)
    requires n < 6
    ensures "abcdef"[n] as int == 97 + n && "ABCDEF"[n] as int == 65 + n
  {
  }

  lemma FoldExact(a: char, b: char)
    ensures Fold(a) == Fold(b) <==> SameCase(a, b)
  {
    if Fold(a) == Fold(b) && a != b {
      HexLetters(Fold(a) as int - 65);
    }
    forall n: nat | n < 6
      ensures Fold("abcdef"[n]) == Fold("ABCDEF"[n])
    {
      HexLetters(n);
    }
  }

  ghost predicate SameLetters(v: string, etag: string)
  {
    |v| == |etag| && forall i :: 0 <= i < |v| ==> SameCase(v[i], etag[i])
  }

  lemma TagExact(v: string, pads: string, etag: string)
    requires |etag| == 16 && forall i :: 0 <= i < 16 ==> IsDigit(etag[i])
    requires v == "" || (v[|v| - 1] != ' ' && v[|v| - 1] != '\t')
    requires forall i :: 0 <= i < |pads| ==> pads[i] == ' ' || pads[i] == '\t'
    ensures SameTag(v + pads, etag) <==> SameLetters(v, etag)
  {
    var w := v + pads;
    assert forall i :: 0 <= i < |v| ==> w[i] == v[i];
    assert forall i :: |v| <= i < |w| ==> w[i] == pads[i - |v|];
    forall i | 0 <= i < 16 && i < |w|
      ensures Fold(w[i]) == Fold(etag[i]) <==> SameCase(w[i], etag[i])
    {
      FoldExact(w[i], etag[i]);
    }
    if |v| < 16 && |w| >= 16 {
      assert IsPad(w[|v|]) && !IsPad(Fold(etag[|v|]));
      assert !SameTag(w, etag);
    } else if |v| > 16 {
      assert !IsPad(w[|v| - 1]);
    }
  }

  /** An entry's own characters: a mark, perhaps an opening quote, a value, padding, perhaps a closing quote. */
  function EntryText(weak: bool, open: bool, v: string, pads: string, behind: string): string
  {
    (if weak then "W/" else "") + ((if open then "\"" else "") + (v + pads + behind))
  }

  /** The entry's value is the tag in letters of either case, or it is not admitted. */
  lemma EntryAdmits(weak: bool, open: bool, v: string, pads: string, behind: string, etag: string)
    requires |etag| == 16 && forall i :: 0 <= i < 16 ==> IsDigit(etag[i])
    requires v != "" && v[|v| - 1] != ' ' && v[|v| - 1] != '\t' && '"' !in v
    requires forall i :: 0 <= i < |pads| ==> pads[i] == ' ' || pads[i] == '\t'
    requires behind == "" || behind[0] == '"'
    requires !weak && !open ==> v[0] != '*' && !("W/" <= v)
    ensures Admits(EntryText(weak, open, v, pads, behind), etag) <==> SameLetters(v, etag)
  {
    var inner := v + pads + behind;
    var quoted := (if open then "\"" else "") + inner;
    var e := EntryText(weak, open, v, pads, behind);
    assert inner[0] == v[0] && (|inner| > 1 && |v| > 1 ==> inner[1] == v[1]);
    assert quoted[0] == if open then '"' else v[0];
    UnmarkedIs(weak, open, v, pads, behind);
    assert forall k :: 0 <= k < |v + pads| ==> inner[k] != '"';
    QuoteIs(inner, |v + pads|);
    assert inner[..|v + pads|] == v + pads;
    TagExact(v, pads, etag);
    hide SameTag, SameLetters, Unmarked;
    assert e[0] == if weak then 'W' else quoted[0];
  }

  lemma NoMark(v: string, more: string)
    requires v != "" && !("W/" <= v) && (more == "" || more[0] != '/')
    ensures !("W/" <= v + more)
  {
    assert "W/"[1] == '/';
    if |v| > 1 {
      assert (v + more)[..2] == v[..2];
    } else if more != "" {
      assert (v + more)[1] == more[0];
    }
  }

  lemma UnmarkedIs(weak: bool, open: bool, v: string, pads: string, behind: string)
    requires v != "" && '"' !in v && (!weak && !open ==> !("W/" <= v)) && (pads == "" || pads[0] != '/')
    requires behind == "" || behind[0] == '"'
    ensures Unmarked(EntryText(weak, open, v, pads, behind)) == v + pads + behind
  {
    var inner := v + pads + behind;
    var quoted := (if open then "\"" else "") + inner;
    var e := EntryText(weak, open, v, pads, behind);
    assert inner[0] == v[0];
    if weak {
      assert e[2..] == quoted;
    } else if open {
      assert e == quoted && e[0] == '"';
    } else {
      NoMark(v, pads + behind);
      assert v + (pads + behind) == inner;
      assert e == inner && e[0] != '"';
    }
    if open {
      assert quoted[1..] == inner;
    } else {
      assert quoted == inner;
    }
  }

  /** The wildcard admits every tag. */
  lemma WildcardAdmits(behind: string, etag: string)
    ensures Admits("*" + behind, etag)
  {
  }

  /** A list is admitted by its parts. */
  lemma ListSplits(a: string, b: string, etag: string)
    ensures Matches(a + "," + b, etag) <==> Matches(a, etag) || Matches(b, etag)
  {
    hide Admits, Starts, EntryAt, Matches;
    var h := a + "," + b;
    FrontEntries(a, b);
    BackEntries(a, b);
    SplitsAt(h, a, b, etag);
  }

  lemma FrontEntries(a: string, b: string)
    ensures var h := a + "," + b;
            forall s: nat :: s <= |a| ==> Starts(h, s) == Starts(a, s) && EntryAt(h, s) == EntryAt(a, s)
  {
    var h := a + "," + b;
    assert h[|a|] == ',' && forall k :: 0 <= k < |a| ==> h[k] == a[k];
    forall s: nat | s <= |a|
      ensures Starts(h, s) == Starts(a, s) && EntryAt(h, s) == EntryAt(a, s)
    {
      var e := CommaFrom(a, s);
      CommaIs(h, s, e);
      assert h[s..e] == a[s..e];
    }
  }

  lemma BackEntries(a: string, b: string)
    ensures var h := a + "," + b;
            forall s: nat :: s <= |b| ==>
              Starts(h, |a| + 1 + s) == Starts(b, s) && EntryAt(h, |a| + 1 + s) == EntryAt(b, s)
  {
    hide Starts, EntryAt;
    forall s: nat | s <= |b|
      ensures Starts(a + "," + b, |a| + 1 + s) == Starts(b, s)
      ensures EntryAt(a + "," + b, |a| + 1 + s) == EntryAt(b, s)
    {
      BackEntry(a, b, s);
    }
  }

  lemma BackEntry(a: string, b: string, s: nat)
    requires s <= |b|
    ensures Starts(a + "," + b, |a| + 1 + s) == Starts(b, s)
    ensures EntryAt(a + "," + b, |a| + 1 + s) == EntryAt(b, s)
  {
    var h, n := a + "," + b, |a| + 1;
    assert h[|a|] == ',' && h[n..] == b;
    hide EntryAt;
    assert s > 0 ==> h[n + s - 1] == h[n..][s - 1];
    EntryBehind(h, n, s);
  }

  lemma EntryBehind(h: string, n: nat, s: nat)
    requires n <= n + s <= |h|
    ensures EntryAt(h, n + s) == EntryAt(h[n..], s)
  {
    var b := h[n..];
    var e := CommaFrom(b, s);
    CommaIs(h, n + s, n + e);
    assert h[n + s..n + e] == b[s..e];
  }

  lemma CommaIs(h: string, s: nat, e: nat)
    requires s <= e <= |h| && (forall k :: s <= k < e ==> h[k] != ',') && (e < |h| ==> h[e] == ',')
    ensures CommaFrom(h, s) == e
  {
  }

  lemma SplitsAt(h: string, a: string, b: string, etag: string)
    requires |h| == |a| + 1 + |b|
    requires forall s: nat :: s <= |a| ==> Starts(h, s) == Starts(a, s) && EntryAt(h, s) == EntryAt(a, s)
    requires forall s: nat :: s <= |b| ==>
               Starts(h, |a| + 1 + s) == Starts(b, s) && EntryAt(h, |a| + 1 + s) == EntryAt(b, s)
    ensures Matches(h, etag) <==> Matches(a, etag) || Matches(b, etag)
  {
    hide Admits, Starts, EntryAt;
    if Matches(h, etag) {
      var s :| 0 <= s <= |h| && Starts(h, s) && Admits(EntryAt(h, s), etag);
      if s > |a| {
        var k := s - (|a| + 1);
        assert s == |a| + 1 + k;
        assert Starts(b, k) && Admits(EntryAt(b, k), etag);
      }
    }
    if Matches(b, etag) {
      var s :| 0 <= s <= |b| && Starts(b, s) && Admits(EntryAt(b, s), etag);
      assert Starts(h, |a| + 1 + s) && Admits(EntryAt(h, |a| + 1 + s), etag);
    }
  }

  /** One entry alone, behind padding. */
  lemma OneEntry(pads: string, e: string, etag: string)
    requires forall i :: 0 <= i < |pads| ==> pads[i] == ' ' || pads[i] == '\t'
    requires ',' !in e && (e != "" ==> e[0] != ' ' && e[0] != '\t')
    ensures Matches(pads + e, etag) <==> Admits(e, etag)
  {
    hide Admits;
    var h := pads + e;
    assert forall k :: 0 <= k < |h| ==> h[k] == if k < |pads| then pads[k] else e[k - |pads|];
    EntryEnds(h, 0, |pads|, |h|);
    assert h[|pads|..] == e;
    assert h[|pads|..|h|] == e;
  }

  // --- the resource's own tag ------------------------------------------------------------------

  /** The tag as a client sends it back. */
  function Sent(weak: bool, quoted: bool, tag: string): string
  {
    (if weak then "W/" else "") + (if quoted then "\"" + tag + "\"" else tag)
  }

  predicate IsDigit(c: char) { '0' <= c <= '9' || 'A' <= c <= 'F' }

  /** A list of one tag admits exactly that tag. */
  lemma OneTag(weak: bool, quoted: bool, tag: string, etag: string)
    requires |tag| == ETAG_LEN == |etag|
    requires forall i :: 0 <= i < ETAG_LEN ==> IsDigit(tag[i]) && IsDigit(etag[i])
    ensures Matches(Sent(weak, quoted, tag), etag) <==> tag == etag
  {
    hide SameTag;
    var h := Sent(weak, quoted, tag);
    SentParts(weak, quoted, tag);
    EntryEnds(h, 0, 0, |h|);
    assert h[0..|h|] == h;
    DigitsFold(tag, etag);
  }

  lemma SentParts(weak: bool, quoted: bool, tag: string)
    requires |tag| == ETAG_LEN && forall i :: 0 <= i < ETAG_LEN ==> IsDigit(tag[i])
    ensures var h := Sent(weak, quoted, tag);
            && h != "" && !IsPad(h[0]) && h[0] != '*' && (forall i :: 0 <= i < |h| ==> h[i] != ',')
            && Unmarked(h)[..QuoteFrom(Unmarked(h), 0)] == tag
  {
    var h := Sent(weak, quoted, tag);
    var inner := if quoted then "\"" + tag + "\"" else tag;
    if weak {
      assert h == "W/" + inner && h[2..] == inner;
    } else {
      assert h == inner && h[0] != 'W';
    }
    InnerUnquoted(quoted, tag);
    QuoteIs(Unmarked(h), ETAG_LEN);
  }

  lemma InnerUnquoted(quoted: bool, tag: string)
    requires tag != "" && tag[0] != '"'
    ensures var inner := if quoted then "\"" + tag + "\"" else tag;
            && inner != "" && (inner[0] == '"' <==> quoted)
            && (quoted ==> inner[1..] == tag + "\"")
  {
  }

  lemma DigitsFold(tag: string, etag: string)
    requires |tag| == ETAG_LEN == |etag|
    requires forall i :: 0 <= i < ETAG_LEN ==> IsDigit(tag[i]) && IsDigit(etag[i])
    ensures SameTag(tag, etag) <==> tag == etag
  {
  }

  lemma {:induction false} HexDigits(n: nat, k: nat)
    ensures forall i :: 0 <= i < k ==> IsDigit(Checksums.HexOf(n, k)[i])
    decreases k
  {
    if k > 0 {
      HexDigits(n / 16, k - 1);
      assert IsDigit("0123456789ABCDEF"[n % 16]);
    }
  }

  /**
   * A write that sends back the tag it was given, quoted or weak or bare, is let
   * through exactly while the resource's stamp is the one it was given for.
   */
  lemma StaleIsRefused(weak: bool, quoted: bool, given: Checksums.Stamp, now: Checksums.Stamp)
    ensures Matches(Sent(weak, quoted, Checksums.Printed(given)), Checksums.Printed(now)) <==> given == now
  {
    hide Matches, Sent, Checksums.Hex8, Checksums.HexOf, Checksums.Xor;
    StampDigits(given);
    StampDigits(now);
    OneTag(weak, quoted, Checksums.Printed(given), Checksums.Printed(now));
    Checksums.PrintedInjective(given, now);
  }

  lemma StampDigits(s: Checksums.Stamp)
    ensures |Checksums.Printed(s)| == ETAG_LEN
    ensures forall i :: 0 <= i < ETAG_LEN ==> IsDigit(Checksums.Printed(s)[i])
  {
    HexDigits(s.len, 8);
    CrcDigits(Checksums.Xor(s.crc, Checksums.ONES));
    hide Checksums.Hex8, Checksums.HexOf, Checksums.Xor;
  }

  lemma CrcDigits(v: bv32)
    ensures forall i :: 0 <= i < 8 ==> IsDigit(Checksums.Hex8(v)[i])
  {
    hide Checksums.Nibble, Checksums.HexChar;
  }
}
