// The two scanners of src/router.c over a route pattern: one decides whether a path
// matches, the other takes the variables out of it. They are written separately and
// have to agree.
module PathPatterns {
  import opened Texts

  predicate IsDelimiter(c: char) { c == '/' || c == '(' || c == ')' }

  /** The length of the part of s in front of its first delimiter. */
  function Span(s: string): (k: nat)
    ensures k <= |s| && (forall i :: 0 <= i < k ==> !IsDelimiter(s[i])) && (k < |s| ==> IsDelimiter(s[k]))
  {
    if s == "" || IsDelimiter(s[0]) then 0 else 1 + Span(s[1..])
  }

  /** The position of the first c in s, or the end. */
  function Until(s: string, c: char): (k: nat)
    ensures k <= |s| && (forall i :: 0 <= i < k ==> s[i] != c) && (k < |s| ==> s[k] == c)
  {
    if s == "" || s[0] == c then 0 else 1 + Until(s[1..], c)
  }

  /** What follows the closing brace; nothing when there is none. */
  function AfterBrace(pat: string): (rest: string)
    ensures |rest| <= |pat| && (pat != "" ==> |rest| < |pat|)
  {
    if pat == "" then "" else if pat[0] == '}' then pat[1..] else AfterBrace(pat[1..])
  }

  predicate IsWild(pat: string)
  {
    |pat| >= 2 && pat[0] == '{' && pat[1] == '*'
  }

  /** The pattern without the wildcards it starts with. */
  function WithoutWilds(pat: string): (rest: string)
    decreases |pat|
  {
    if IsWild(pat) then WithoutWilds(AfterBrace(pat)) else pat
  }

  /** is_pattern_match(), on what is left of the pattern and of the path. */
  predicate Matches(pat: string, path: string)
    decreases |pat|
  {
    if pat != "" && path != "" then
      if pat[0] == '{' then
        Matches(AfterBrace(pat), if IsWild(pat) then "" else path[Span(path)..])
      else
        pat[0] == path[0] && Matches(pat[1..], path[1..])
    else
      WithoutWilds(pat) == "" && path == ""
  }

  /** The two pointers of the scanner, as what is left behind each. */
  method PatternMatch(pattern: string, path: string) returns (matched: bool)
    ensures matched == Matches(pattern, path)
  {
    var pat, rest := pattern, path;
    while pat != "" && rest != ""
      invariant Matches(pat, rest) == Matches(pattern, path)
      decreases |pat|
    {
      if pat[0] == '{' {
        var wild := |pat| >= 2 && pat[1] == '*';
        pat := SkipVariable(pat);
        if wild {
          rest := "";
        } else {
          rest := SkipSpan(rest);
        }
      } else if pat[0] == rest[0] {
        pat, rest := pat[1..], rest[1..];
      } else {
        return false;
      }
    }
    while |pat| >= 2 && pat[0] == '{' && pat[1] == '*'
      invariant Matches(pattern, path) == (WithoutWilds(pat) == "" && rest == "")
      decreases |pat|
    {
      pat := SkipVariable(pat);
    }
    return pat == "" && rest == "";
  }

  /** Steps over a variable and its closing brace. */
  method SkipVariable(pattern: string) returns (pat: string)
    ensures pat == AfterBrace(pattern)
  {
    pat := pattern;
    while pat != "" && pat[0] != '}'
      invariant AfterBrace(pat) == AfterBrace(pattern)
      decreases |pat|
    {
      pat := pat[1..];
    }
    if pat != "" {
      pat := pat[1..];
    }
  }

  method SkipSpan(path: string) returns (rest: string)
    ensures rest == path[Span(path)..]
  {
    rest := path;
    while rest != "" && !IsDelimiter(rest[0])
      invariant rest[Span(rest)..] == path[Span(path)..]
      decreases |rest|
    {
      rest := rest[1..];
    }
  }

  // --- extraction -----------------------------------------------------------------------

  /** A variable's name, and the raw value it was given. */
  datatype Binding = Binding(name: string, value: string)

  /** The length of the value a variable takes, by the pattern text behind it. */
  function ValueLength(rest: string, path: string): (k: nat)
    ensures k <= |path|
  {
    var d := Span(rest);
    if d < |rest| then Until(path, rest[d]) else |path|
  }

  /** extract_path_vars(), on what is left of the pattern and of the path. */
  function Extract(pat: string, path: string): seq<Binding>
    decreases |pat|
  {
    if pat == "" then []
    else if pat[0] == '{' then
      var wild := IsWild(pat);
      var inner := if wild then pat[2..] else pat[1..];
      var name := inner[..Until(inner, '}')];
      var rest := AfterBrace(pat);
      var k := if wild then |path| else ValueLength(rest, path);
      [Binding(name, path[..k])] + Extract(rest, path[k..])
    else if path != "" && pat[0] == path[0] then
      Extract(pat[1..], path[1..])
    else
      []
  }

  /** The environment the extraction sets, in order. */
  function Environment(pat: string, path: string): seq<Binding>
  {
    Bound(Extract(pat, path))
  }

  function Bound(bs: seq<Binding>): seq<Binding>
  {
    if bs == [] then [] else [Binding("HTTP_" + bs[0].name, TrimRight(bs[0].value))] + Bound(bs[1..])
  }

  method ExtractVariables(pattern: string, path: string) returns (env: seq<Binding>)
    ensures env == Environment(pattern, path)
  {
    var pat, rest := pattern, path;
    env := [];
    while pat != ""
      invariant env + Environment(pat, rest) == Environment(pattern, path)
      decreases |pat|
    {
      if pat[0] == '{' {
        ghost var pat0, rest0, env0 := pat, rest, env;
        var name, value, after := TakeVariable(pat, rest);
        pat, rest := after, rest[|value|..];
        var length := TrimmedLength(value);
        var trimmed := value[..length];
        env := env + [Binding("HTTP_" + name, trimmed)];
        assert Environment(pat0, rest0) == [Binding("HTTP_" + name, trimmed)] + Environment(pat, rest) by {
          assert Extract(pat0, rest0)[1..] == Extract(pat, rest);
        }
        assert env0 + ([Binding("HTTP_" + name, trimmed)] + Environment(pat, rest)) == env + Environment(pat, rest);
      } else if rest != "" && pat[0] == rest[0] {
        pat, rest := pat[1..], rest[1..];
      } else {
        break;
      }
    }
    assert env + [] == env;
  }

  /** One variable: its name, its raw value, and the pattern behind it. */
  method TakeVariable(pat: string, path: string) returns (name: string, value: string, rest: string)
    requires pat != "" && pat[0] == '{'
    ensures rest == AfterBrace(pat) && value <= path
    ensures Extract(pat, path) == [Binding(name, value)] + Extract(rest, path[|value|..])
  {
    hide Until, ValueLength, AfterBrace;
    var wild := |pat| >= 2 && pat[1] == '*';
    name := ReadName(if wild then pat[2..] else pat[1..]);
    rest := SkipVariable(pat);
    value := path;
    if !wild {
      value := ReadValue(rest, path);
    }
    assert path[..|path|] == path;
  }

  method ReadName(pattern: string) returns (name: string)
    ensures name == pattern[..Until(pattern, '}')]
  {
    var n := 0;
    while n < |pattern| && pattern[n] != '}'
      invariant n <= |pattern| && forall i :: 0 <= i < n ==> pattern[i] != '}'
    {
      n := n + 1;
    }
    assert n == Until(pattern, '}');
    name := pattern[..n];
  }

  method ReadValue(pattern: string, path: string) returns (value: string)
    ensures value == path[..ValueLength(pattern, path)]
  {
    var next := SkipSpan(pattern);
    var k := 0;
    while k < |path| && (next == "" || path[k] != next[0])
      invariant k <= |path| && (next != "" ==> forall i :: 0 <= i < k ==> path[i] != next[0])
    {
      k := k + 1;
    }
    assert next != "" ==> next[0] == pattern[Span(pattern)] && k == Until(path, next[0]);
    value := path[..k];
  }

  // --- patterns as they are meant --------------------------------------------------------

  /**
   * A pattern piece by piece. A word is literal text between delimiters; a variable
   * takes text up to the next delimiter, a wildcard all the rest.
   */
  datatype Pattern =
    | End
    | Slash(next: Pattern)
    | Open(next: Pattern)
    | Close(next: Pattern)
    | Word(text: string, next: Pattern)
    | Var(name: string, next: Pattern)
    | Wild(name: string)

  predicate StartsDelimited(p: Pattern) { p.End? || p.Slash? || p.Open? || p.Close? }

  /** Every variable is directly followed by a delimiter or the end. */
  predicate WellFormed(p: Pattern)
  {
    match p
    case End => true
    case Slash(next) => WellFormed(next)
    case Open(next) => WellFormed(next)
    case Close(next) => WellFormed(next)
    case Word(text, next) =>
      text != "" && (forall i :: 0 <= i < |text| ==> !IsDelimiter(text[i]) && text[i] != '{') && WellFormed(next)
    case Var(name, next) =>
      '}' !in name && (name != "" ==> name[0] != '*') && StartsDelimited(next) && WellFormed(next)
    case Wild(name) => '}' !in name
  }

  /** The pattern as it is registered. */
  function Text(p: Pattern): string
  {
    match p
    case End => ""
    case Slash(next) => "/" + Text(next)
    case Open(next) => "(" + Text(next)
    case Close(next) => ")" + Text(next)
    case Word(text, next) => text + Text(next)
    case Var(name, next) => "{" + name + "}" + Text(next)
    case Wild(name) => "{*" + name + "}"
  }

  function Names(p: Pattern): seq<string>
  {
    match p
    case End => []
    case Slash(next) => Names(next)
    case Open(next) => Names(next)
    case Close(next) => Names(next)
    case Word(text, next) => Names(next)
    case Var(name, next) => [name] + Names(next)
    case Wild(name) => [name]
  }

  /** The path the pattern stands for, its variables replaced in order. */
  function Substituted(p: Pattern, vs: seq<string>): string
    requires |vs| == |Names(p)|
  {
    match p
    case End => ""
    case Slash(next) => "/" + Substituted(next, vs)
    case Open(next) => "(" + Substituted(next, vs)
    case Close(next) => ")" + Substituted(next, vs)
    case Word(text, next) => text + Substituted(next, vs)
    case Var(name, next) => vs[0] + Substituted(next, vs[1..])
    case Wild(name) => vs[0]
  }

  /** Values a path can carry: free of delimiters but for a wildcard's, and not empty at the end. */
  predicate Fit(p: Pattern, vs: seq<string>)
    requires |vs| == |Names(p)|
  {
    match p
    case End => true
    case Slash(next) => Fit(next, vs)
    case Open(next) => Fit(next, vs)
    case Close(next) => Fit(next, vs)
    case Word(text, next) => Fit(next, vs)
    case Var(name, next) =>
      (forall i :: 0 <= i < |vs[0]| ==> !IsDelimiter(vs[0][i])) && (next.End? ==> vs[0] != "") && Fit(next, vs[1..])
    case Wild(name) => true
  }

  function Paired(names: seq<string>, vs: seq<string>): seq<Binding>
    requires |names| == |vs|
  {
    if names == [] then [] else [Binding(names[0], vs[0])] + Paired(names[1..], vs[1..])
  }

  // --- matching is substitution undone -----------------------------------------------------

  lemma {:induction false} WordMatches(text: string, rest: string, path: string)
    requires forall i :: 0 <= i < |text| ==> text[i] != '{'
    ensures Matches(text + rest, path) <==> text <= path && Matches(rest, path[|text|..])
    ensures text <= path ==> Extract(text + rest, path) == Extract(rest, path[|text|..])
    decreases |text|
  {
    if text == "" {
      assert text + rest == rest && path[0..] == path;
    } else {
      assert (text + rest)[1..] == text[1..] + rest;
      if path != "" {
        WordMatches(text[1..], rest, path[1..]);
        assert text <= path <==> text[0] == path[0] && text[1..] <= path[1..];
        if text <= path {
          assert path[1..][|text| - 1..] == path[|text|..];
        }
      }
    }
  }

  lemma {:induction false} AfterBraceIs(pat: string, n: nat)
    requires n < |pat| && pat[n] == '}' && '}' !in pat[..n]
    ensures AfterBrace(pat) == pat[n + 1..]
    decreases n
  {
    if n > 0 {
      assert pat[0] in pat[..n] && pat[1..][..n - 1] == pat[..n][1..];
      AfterBraceIs(pat[1..], n - 1);
    }
  }

  lemma BraceClosed(head: string, name: string, rest: string)
    requires '}' !in head && '}' !in name
    ensures AfterBrace(head + name + "}" + rest) == rest
    ensures (head + name + "}" + rest)[|head|..][..Until((head + name + "}" + rest)[|head|..], '}')] == name
  {
    var pat := head + name + "}" + rest;
    var n := |head| + |name|;
    assert pat[n] == '}' && pat[n + 1..] == rest;
    assert forall i :: 0 <= i < |head| ==> pat[i] == head[i];
    assert forall i :: |head| <= i < n ==> pat[i] == name[i - |head|];
    AfterBraceIs(pat, n);
    var inner := pat[|head|..];
    assert inner[|name|] == '}' && inner[..|name|] == name;
    assert Until(inner, '}') == |name|;
  }

  lemma SpanIs(v: string, rest: string)
    requires forall i :: 0 <= i < |v| ==> !IsDelimiter(v[i])
    requires rest == "" || IsDelimiter(rest[0])
    ensures Span(v + rest) == |v|
  {
    var s := v + rest;
    assert forall i :: 0 <= i < |v| ==> s[i] == v[i];
    assert rest != "" ==> s[|v|] == rest[0];
  }

  lemma TextStart(p: Pattern)
    requires StartsDelimited(p)
    ensures p.End? <==> Text(p) == ""
    ensures !p.End? ==> IsDelimiter(Text(p)[0]) && Text(p)[0] != '{'
  {
  }

  lemma VarText(name: string, rest: string)
    requires '}' !in name && (name != "" ==> name[0] != '*')
    ensures var pat := "{" + name + "}" + rest;
            && pat != "" && pat[0] == '{' && !IsWild(pat) && AfterBrace(pat) == rest
            && pat[1..][..Until(pat[1..], '}')] == name
  {
    var pat := "{" + name + "}" + rest;
    BraceClosed("{", name, rest);
    assert name == "" ==> pat[1] == '}';
    assert name != "" ==> pat[1] == name[0];
  }

  lemma WildText(name: string)
    requires '}' !in name
    ensures var pat := "{*" + name + "}";
            && IsWild(pat) && AfterBrace(pat) == "" && pat[2..][..Until(pat[2..], '}')] == name
  {
    BraceClosed("{*", name, "");
    assert "{*" + name + "}" + "" == "{*" + name + "}";
  }

  /** What a variable takes from the path, in both scanners. */
  lemma VarStep(name: string, next: Pattern, path: string)
    requires WellFormed(Var(name, next))
    ensures var pat := Text(Var(name, next));
            && (path == "" ==> !Matches(pat, path))
            && (path != "" ==> (Matches(pat, path) <==> Matches(Text(next), path[Span(path)..])))
            && var k := if next.End? then |path| else Until(path, Text(next)[0]);
               Extract(pat, path) == [Binding(name, path[..k])] + Extract(Text(next), path[k..])
  {
    var rest := Text(next);
    VarText(name, rest);
    TextStart(next);
    assert !next.End? ==> Span(rest) == 0;
  }

  /** Behind a matched variable comes its delimiter: both scanners stop there. */
  lemma StopsAgree(next: Pattern, path: string)
    requires WellFormed(next) && StartsDelimited(next) && Matches(Text(next), path[Span(path)..])
    ensures Span(path) == if next.End? then |path| else Until(path, Text(next)[0])
  {
    TextStart(next);
    var k := Span(path);
    if next.End? {
      assert path[k..] == "";
    } else {
      var c := Text(next)[0];
      assert path[k..] != "" && path[k..][0] == path[k] == c;
    }
  }

  /** A delimiter of the pattern takes itself from the path, in both scanners. */
  lemma DelimiterTakes(p: Pattern, path: string)
    requires StartsDelimited(p) && !p.End?
    ensures Matches(Text(p), path) <==> path != "" && path[0] == Text(p)[0] && Matches(Text(p.next), path[1..])
    ensures path != "" && path[0] == Text(p)[0] ==> Extract(Text(p), path) == Extract(Text(p.next), path[1..])
    ensures Text(p)[0] == (if p.Slash? then '/' else if p.Open? then '(' else ')')
  {
    assert Text(p)[1..] == Text(p.next);
  }

  lemma EndTakesNothing(path: string)
    ensures Matches("", path) <==> path == ""
    ensures Extract("", path) == []
  {
  }

  lemma WildTakesAll(name: string, path: string)
    requires '}' !in name
    ensures Matches("{*" + name + "}", path) && Extract("{*" + name + "}", path) == [Binding(name, path)]
  {
    WildText(name);
    assert path[..|path|] == path;
  }

  /**
   * A match is a substitution undone: when a path matches, the extraction yields
   * values free of delimiters that put back into the pattern give the path again.
   */
  lemma {:induction false} MatchRebuilds(p: Pattern, path: string) returns (vs: seq<string>)
    requires WellFormed(p) && Matches(Text(p), path)
    ensures |vs| == |Names(p)| && Fit(p, vs) && Substituted(p, vs) == path
    ensures Extract(Text(p), path) == Paired(Names(p), vs)
    decreases p, 1
  {
    hide Matches, Extract, Span, Until;
    match p {
      case End =>
        EndTakesNothing(path);
        vs := [];
      case Slash(next) =>
        DelimiterTakes(p, path);
        vs := MatchRebuilds(next, path[1..]);
      case Open(next) =>
        DelimiterTakes(p, path);
        vs := MatchRebuilds(next, path[1..]);
      case Close(next) =>
        DelimiterTakes(p, path);
        vs := MatchRebuilds(next, path[1..]);
      case Word(text, next) =>
        WordMatches(text, Text(next), path);
        vs := MatchRebuilds(next, path[|text|..]);
      case Var(name, next) =>
        vs := VarRebuilds(name, next, path);
      case Wild(name) =>
        WildTakesAll(name, path);
        vs := [path];
        PairedCons(name, path, [], []);
    }
  }

  lemma VarRebuilds(name: string, next: Pattern, path: string) returns (vs: seq<string>)
    requires var p := Var(name, next); WellFormed(p) && Matches(Text(p), path)
    ensures var p := Var(name, next);
            && |vs| == |Names(p)| && Fit(p, vs) && Substituted(p, vs) == path
            && Extract(Text(p), path) == Paired(Names(p), vs)
    decreases Var(name, next), 0
  {
    hide Matches, Extract, Span, Until;
    VarStep(name, next, path);
    StopsAgree(next, path);
    var k := Span(path);
    var more := MatchRebuilds(next, path[k..]);
    vs := [path[..k]] + more;
    VarRebuilt(name, next, path[..k], more);
    assert path[..k] + path[k..] == path;
    assert next.End? ==> path[..k] == path;
  }

  /** A variable's value in front of those of the rest. */
  lemma VarRebuilt(name: string, next: Pattern, v: string, more: seq<string>)
    requires |more| == |Names(next)|
    ensures var p, vs := Var(name, next), [v] + more;
            && |vs| == |Names(p)| && Substituted(p, vs) == v + Substituted(next, more)
            && (Fit(p, vs) <==>
                  (forall i :: 0 <= i < |v| ==> !IsDelimiter(v[i])) && (next.End? ==> v != "") && Fit(next, more))
            && Paired(Names(p), vs) == [Binding(name, v)] + Paired(Names(next), more)
  {
    PairedCons(name, v, Names(next), more);
  }

  lemma PairedCons(name: string, v: string, names: seq<string>, vs: seq<string>)
    requires |names| == |vs|
    ensures Paired([name] + names, [v] + vs) == [Binding(name, v)] + Paired(names, vs)
    ensures ([v] + vs)[1..] == vs && ([name] + names)[1..] == names
    ensures Paired([name], [v]) == [Binding(name, v)]
  {
    assert [name][1..] == [] && [v][1..] == [];
    assert ([v] + vs)[1..] == vs && ([name] + names)[1..] == names;
  }

  /** And every substitution of fitting values matches, and gives those values back. */
  lemma {:induction false} SubstitutionMatches(p: Pattern, vs: seq<string>)
    requires WellFormed(p) && |vs| == |Names(p)| && Fit(p, vs)
    ensures Matches(Text(p), Substituted(p, vs))
    ensures Extract(Text(p), Substituted(p, vs)) == Paired(Names(p), vs)
    decreases p
  {
    hide Matches, Extract, Span, Until;
    var path := Substituted(p, vs);
    match p {
      case End =>
        EndTakesNothing(path);
      case Slash(next) =>
        assert path[1..] == Substituted(next, vs);
        DelimiterTakes(p, path);
        SubstitutionMatches(next, vs);
      case Open(next) =>
        assert path[1..] == Substituted(next, vs);
        DelimiterTakes(p, path);
        SubstitutionMatches(next, vs);
      case Close(next) =>
        assert path[1..] == Substituted(next, vs);
        DelimiterTakes(p, path);
        SubstitutionMatches(next, vs);
      case Word(text, next) =>
        SubstitutionMatches(next, vs);
        assert path[|text|..] == Substituted(next, vs);
        WordMatches(text, Text(next), path);
      case Var(name, next) =>
        var more := vs[1..];
        var rest := Substituted(next, more);
        SubstitutionMatches(next, more);
        DelimitedStart(next, more);
        SpanIs(vs[0], rest);
        assert path[..|vs[0]|] == vs[0] && path[|vs[0]|..] == rest;
        VarStep(name, next, path);
        StopsAgree(next, path);
        PairedCons(name, vs[0], Names(next), more);
        assert vs == [vs[0]] + more;
      case Wild(name) =>
        WildTakesAll(name, path);
        PairedCons(name, path, [], []);
        assert vs == [path];
    }
  }

  lemma DelimitedStart(p: Pattern, vs: seq<string>)
    requires StartsDelimited(p) && |vs| == |Names(p)|
    ensures var s := Substituted(p, vs);
            if p.End? then s == "" else s != "" && IsDelimiter(s[0]) && s[0] == Text(p)[0]
  {
  }

  /** Exactly the substitutions match. */
  lemma MatchExact(p: Pattern, path: string)
    requires WellFormed(p)
    ensures Matches(Text(p), path) <==>
              exists vs: seq<string> :: |vs| == |Names(p)| && Fit(p, vs) && Substituted(p, vs) == path
  {
    if Matches(Text(p), path) {
      var vs := MatchRebuilds(p, path);
    }
    if vs: seq<string> :| |vs| == |Names(p)| && Fit(p, vs) && Substituted(p, vs) == path {
      SubstitutionMatches(p, vs);
    }
  }

  // --- two patterns that exclude each other ----------------------------------------------------

  /** Every word is bounded by delimiters too, so that it and a variable end at the same place. */
  predicate Segmented(p: Pattern)
  {
    match p
    case End => true
    case Slash(next) => Segmented(next)
    case Open(next) => Segmented(next)
    case Close(next) => Segmented(next)
    case Word(text, next) => StartsDelimited(next) && Segmented(next)
    case Var(name, next) => Segmented(next)
    case Wild(name) => true
  }

  /** Reading both from the left, they come to a place where no text suits both. */
  predicate Clash(a: Pattern, b: Pattern)
    decreases a, b
  {
    match (a, b)
    case (End, End) => false
    case (Wild(_), _) => false
    case (_, Wild(_)) => false
    case (End, _) => true
    case (_, End) => true
    case (Slash(x), Slash(y)) => Clash(x, y)
    case (Open(x), Open(y)) => Clash(x, y)
    case (Close(x), Close(y)) => Clash(x, y)
    case (Word(v, x), Word(w, y)) => v != w || Clash(x, y)
    case (Word(_, x), Var(_, y)) => Clash(x, y)
    case (Var(_, x), Word(_, y)) => Clash(x, y)
    case (Var(_, x), Var(_, y)) => Clash(x, y)
    case (Var(_, x), _) => Clash(x, b)
    case (_, Var(_, y)) => Clash(a, y)
    case (_, _) => true
  }

  /** Where a word stands in a path it is all of the text up to the next delimiter. */
  lemma WordStep(text: string, next: Pattern, path: string)
    requires WellFormed(Word(text, next)) && StartsDelimited(next) && Matches(Text(Word(text, next)), path)
    ensures path != "" && path[..Span(path)] == text && Matches(Text(next), path[Span(path)..])
  {
    WordMatches(text, Text(next), path);
    var rest := path[|text|..];
    TextStart(next);
    assert rest == "" || IsDelimiter(rest[0]);
    assert text + rest == path;
    SpanIs(text, rest);
  }

  lemma DelimiterStep(p: Pattern, path: string)
    requires StartsDelimited(p) && !p.End? && Matches(Text(p), path)
    ensures path != "" && path[0] == Text(p)[0] && IsDelimiter(path[0]) && Span(path) == 0
    ensures Matches(Text(p.next), path[1..])
  {
    assert Text(p)[1..] == Text(p.next);
  }

  lemma EndStep(path: string)
    requires Matches("", path)
    ensures path == ""
  {
  }

  /** Patterns that clash have no path in common. */
  lemma {:induction false} ClashExcludes(a: Pattern, b: Pattern, path: string)
    requires WellFormed(a) && WellFormed(b) && Segmented(a) && Segmented(b)
    requires Clash(a, b)
    ensures !(Matches(Text(a), path) && Matches(Text(b), path))
    decreases a, b
  {
    if Matches(Text(a), path) && Matches(Text(b), path) {
      StepOf(a, path);
      StepOf(b, path);
      hide Matches, Text;
      var rest := path[Span(path)..];
      if (a.Word? || a.Var?) && (b.Word? || b.Var?) {
        ClashExcludes(a.next, b.next, rest);
      } else if a.Var? && !b.End? {
        assert rest == path;
        ClashExcludes(a.next, b, path);
      } else if b.Var? && !a.End? {
        assert rest == path;
        ClashExcludes(a, b.next, path);
      } else if a.Slash? || a.Open? || a.Close? {
        ClashExcludes(a.next, b.next, path[1..]);
      }
      assert false;
    }
  }

  /** What a match says about the first piece of the pattern. */
  lemma StepOf(p: Pattern, path: string)
    requires WellFormed(p) && Segmented(p) && Matches(Text(p), path)
    ensures p.End? ==> path == ""
    ensures p.Slash? ==> path != "" && path[0] == '/' && Span(path) == 0 && Matches(Text(p.next), path[1..])
    ensures p.Open? ==> path != "" && path[0] == '(' && Span(path) == 0 && Matches(Text(p.next), path[1..])
    ensures p.Close? ==> path != "" && path[0] == ')' && Span(path) == 0 && Matches(Text(p.next), path[1..])
    ensures p.Word? ==>
            && path != "" && Span(path) > 0 && path[..Span(path)] == p.text
            && Matches(Text(p.next), path[Span(path)..])
    ensures p.Var? ==> path != "" && Matches(Text(p.next), path[Span(path)..])
  {
    match p {
      case End => EndStep(path);
      case Slash(next) => DelimiterStep(p, path);
      case Open(next) => DelimiterStep(p, path);
      case Close(next) => DelimiterStep(p, path);
      case Word(text, next) => WordStep(text, next, path);
      case Var(name, next) => VarStep(name, next, path);
      case Wild(name) =>
    }
  }
}
