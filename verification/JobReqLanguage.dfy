// Which texts jobreq_parse() takes for a request: src/jobreq.c. They are the objects of
// section 4 of RFC 8259 with looser values: what is no string may be anything whose
// brackets, of either kind, are closed, and whose commas stand inside them.
module JobReqLanguage {
  import opened Suffixes
  import opened Wrappers
  import opened JobReq

  /** A piece of a value that is no string. */
  datatype Lexeme = Char(c: char) | Str(raw: string)

  function Spelled(x: Lexeme): string
  {
    match x
    case Char(c) => [c]
    case Str(raw) => Quoted(raw, [])
  }

  function Spell(xs: seq<Lexeme>): string
  {
    if xs == [] then [] else Spell(xs[..|xs| - 1]) + Spelled(xs[|xs| - 1])
  }

  function Change(x: Lexeme): int
  {
    if x.Str? then 0 else if Opens(x.c) then 1 else if Closes(x.c) then -1 else 0
  }

  /** How many brackets are open behind the lexemes. */
  function Level(xs: seq<Lexeme>): int
  {
    if xs == [] then 0 else Level(xs[..|xs| - 1]) + Change(xs[|xs| - 1])
  }

  /** Behind so many open brackets: a comma or a closing bracket needs one. */
  predicate LexemeOk(x: Lexeme, level: int)
  {
    match x
    case Char(c) => c != NUL && c != '"' && (c == ',' || Closes(c) ==> level > 0)
    case Str(raw) => RawText(raw)
  }

  predicate Bracketed(xs: seq<Lexeme>) { forall k :: 0 <= k < |xs| ==> LexemeOk(xs[k], Level(xs[..k])) }

  datatype LooseValue =
    | Whole(raw: string, post: string)
    | Pieces(xs: seq<Lexeme>)

  /** A member; the other text fields hold the blanks before and between. */
  datatype Pair = Pair(pre: string, key: string, mid: string, lead: string, value: LooseValue)

  predicate LooseOk(v: LooseValue)
  {
    match v
    case Whole(raw, post) => RawText(raw) && Blanks(post)
    case Pieces(xs) => Bracketed(xs) && Level(xs) == 0 && (xs == [] || (xs[0].Char? && !Blank(xs[0].c)))
  }

  predicate PairOk(p: Pair)
  {
    Blanks(p.pre) && RawText(p.key) && Blanks(p.mid) && Blanks(p.lead) && LooseOk(p.value)
  }

  function WriteValue(v: LooseValue, rest: string): string
  {
    match v
    case Whole(raw, post) => Quoted(raw, post + rest)
    case Pieces(xs) => Spell(xs) + rest
  }

  function WritePair(p: Pair, rest: string): string
  {
    p.pre + Quoted(p.key, p.mid + ([':'] + (p.lead + WriteValue(p.value, rest))))
  }

  function WritePairs(ps: seq<Pair>, rest: string): string
  {
    if ps == [] then rest else WritePair(ps[0], if |ps| == 1 then rest else [','] + WritePairs(ps[1..], rest))
  }

  function AskedBy(v: LooseValue): int { if v.Whole? then Class(v.raw) else UNKNOWN }

  /** The class of the last member called request. */
  function LastAsked(ps: seq<Pair>, found: int): int
  {
    if ps == [] then found else
    LastAsked(ps[1..], if IsRequest(ps[0].key) then AskedBy(ps[0].value) else found)
  }

  /** Only blanks up to the end of the text. */
  predicate Ends(trail: string) { exists k :: 0 <= k <= |trail| && Blanks(trail[..k]) && CharAt(trail, k) == NUL }

  /** t is the object of these members, with blanks around it. */
  predicate Writes(t: string, lead: string, ps: seq<Pair>, trail: string)
  {
    && Blanks(lead) && Ends(trail) && ps != [] && (forall i :: 0 <= i < |ps| ==> PairOk(ps[i]))
    && t == lead + (['{'] + WritePairs(ps, ['}'] + trail))
  }

  // --- a value that is no string -----------------------------------------------------------

  lemma SliceOf(t: string, p: nat, s: string, a: nat, b: nat)
    requires p + |s| <= |t| && t[p..p + |s|] == s && a <= b <= |s|
    ensures t[p + a..p + b] == s[a..b] && (a < b ==> t[p + a] == s[a])
  {
    forall i | a <= i < b
      ensures t[p + i] == s[i]
    {
      assert t[p..p + |s|][i] == t[p + i];
    }
    assert forall i :: 0 <= i < b - a ==> t[p + a..p + b][i] == t[p + (a + i)] == s[a..b][i];
  }

  lemma QuotedParts(raw: string)
    ensures var s := Spelled(Str(raw)); |s| == |raw| + 2 && s[1..|raw| + 1] == raw && s[|raw| + 1] == '"'
  {
    var s := Spelled(Str(raw));
    assert s == (['"'] + raw) + ['"'];
    assert s[1..|raw| + 1] == raw;
  }

  /** One lexeme is passed. */
  lemma PassLexeme(t: string, p: nat, x: Lexeme, depth: nat)
    requires p + |Spelled(x)| <= |t| && t[p..p + |Spelled(x)|] == Spelled(x) && LexemeOk(x, depth)
    ensures depth + Change(x) >= 0
    ensures ValueEnd(t, p, depth) == ValueEnd(t, p + |Spelled(x)|, depth + Change(x))
  {
    hide RawText, Closing;
    var s := t[p..p + |Spelled(x)|];
    assert s[0] == t[p];
    match x {
      case Char(c) =>
      case Str(raw) =>
        var q := p + 1 + |raw|;
        QuotedParts(raw);
        SliceOf(t, p, s, 1, |raw| + 1);
        SliceOf(t, p, s, |raw| + 1, |s|);
        ClosingAt(t, p + 1, q);
    }
  }

  lemma LevelNatural(xs: seq<Lexeme>)
    requires Bracketed(xs)
    ensures Level(xs) >= 0
  {
    if xs != [] {
      var front, x := xs[..|xs| - 1], xs[|xs| - 1];
      FrontBracketed(xs);
      LevelNatural(front);
    }
  }

  lemma FrontBracketed(xs: seq<Lexeme>)
    requires Bracketed(xs) && xs != []
    ensures Bracketed(xs[..|xs| - 1]) && LexemeOk(xs[|xs| - 1], Level(xs[..|xs| - 1]))
  {
    var front := xs[..|xs| - 1];
    forall k | 0 <= k < |front|
      ensures LexemeOk(front[k], Level(front[..k]))
    {
      assert front[..k] == xs[..k];
    }
  }

  lemma {:induction false} PassPieces(t: string, p: nat, xs: seq<Lexeme>)
    requires Bracketed(xs) && p + |Spell(xs)| <= |t| && t[p..p + |Spell(xs)|] == Spell(xs)
    ensures Level(xs) >= 0 && ValueEnd(t, p, 0) == ValueEnd(t, p + |Spell(xs)|, Level(xs))
    decreases |xs|
  {
    hide ValueEnd, LexemeOk, Spelled, Change;
    LevelNatural(xs);
    if xs != [] {
      var front, x := xs[..|xs| - 1], xs[|xs| - 1];
      var q := p + |Spell(front)|;
      assert Spell(xs) == Spell(front) + Spelled(x);
      FrontBracketed(xs);
      assert t[p..q] == Spell(xs)[..|Spell(front)|] == Spell(front);
      assert t[q..q + |Spelled(x)|] == Spell(xs)[|Spell(front)|..] == Spelled(x);
      PassPieces(t, p, front);
      PassLexeme(t, q, x, Level(front));
    }
  }

  lemma {:induction false} ClosingIs(t: string, p: nat)
    requires p <= |t| && Closing(t, p).Some?
    ensures RawText(t[p..Closing(t, p).value])
    decreases |t| - p
  {
    var q := Closing(t, p).value;
    var s := t[p..q];
    if t[p] == '\\' {
      ClosingIs(t, p + 2);
      assert s[0] == t[p] && s[1] == t[p + 1] && s[2..] == t[p + 2..q];
    } else if t[p] != '"' {
      ClosingIs(t, p + 1);
      assert s[0] == t[p] && s[1..] == t[p + 1..q];
    }
  }

  /** The lexeme a value goes on with. */
  lemma NextLexeme(t: string, p: nat, depth: nat) returns (x: Lexeme)
    requires p <= |t| && ValueEnd(t, p, depth).Some? && ValueEnd(t, p, depth).value != p
    ensures |Spelled(x)| > 0 && p + |Spelled(x)| <= |t| && t[p..p + |Spelled(x)|] == Spelled(x) && LexemeOk(x, depth)
    ensures x.Str? <==> t[p] == '"'
  {
    hide Closing, RawText;
    if t[p] == '"' {
      var q := Closing(t, p + 1).value;
      ClosingIs(t, p + 1);
      x := Str(t[p + 1..q]);
      assert t[p..q + 1] == ['"'] + (t[p + 1..q] + (['"'] + []));
    } else {
      x := Char(t[p]);
    }
  }

  lemma Snoc(xs: seq<Lexeme>, x: Lexeme)
    requires Bracketed(xs) && LexemeOk(x, Level(xs))
    ensures var ys := xs + [x];
            Spell(ys) == Spell(xs) + Spelled(x) && Level(ys) == Level(xs) + Change(x) && Bracketed(ys)
  {
    var ys := xs + [x];
    assert ys[..|ys| - 1] == xs;
    forall k | 0 <= k < |ys|
      ensures LexemeOk(ys[k], Level(ys[..k]))
    {
      assert ys[..k] == xs[..k];
      assert k == |xs| ==> xs[..k] == xs;
    }
  }

  /** A value skipped, taken apart; read holds the lexemes up to q. */
  lemma {:induction false} PiecesOf(t: string, p: nat, q: nat, read: seq<Lexeme>) returns (xs: seq<Lexeme>)
    requires p <= q <= |t| && Bracketed(read) && t[p..q] == Spell(read) && Level(read) >= 0
    requires ValueEnd(t, q, Level(read)).Some?
    ensures Bracketed(xs) && Level(xs) == 0 && Spell(xs) == t[p..ValueEnd(t, q, Level(read)).value]
    ensures read <= xs && (|xs| > |read| ==> (xs[|read|].Str? <==> CharAt(t, q) == '"'))
    ensures |xs| > |read| && xs[|read|].Char? ==> xs[|read|].c == CharAt(t, q)
    decreases |t| - q
  {
    hide Bracketed, Spelled, LexemeOk, Change, ValueEnd, Spell, Level;
    var e := ValueEnd(t, q, Level(read)).value;
    if e == q {
      EndLevel(t, q, Level(read));
      xs := read;
    } else {
      var x := NextLexeme(t, q, Level(read));
      var next := q + |Spelled(x)|;
      PassLexeme(t, q, x, Level(read));
      Snoc(read, x);
      assert t[p..next] == t[p..q] + t[q..next];
      xs := PiecesOf(t, p, next, read + [x]);
      assert xs[|read|] == (read + [x])[|read|] == x;
      CharSpelled(t, q, x);
    }
  }

  lemma CharSpelled(t: string, q: nat, x: Lexeme)
    requires q + |Spelled(x)| <= |t| && t[q..q + |Spelled(x)|] == Spelled(x)
    ensures q < |t| && (x.Char? ==> x.c == t[q])
  {
    assert t[q..q + |Spelled(x)|][0] == t[q];
  }

  /** A value ends outside all brackets only. */
  lemma EndLevel(t: string, p: nat, depth: nat)
    requires p <= |t| && ValueEnd(t, p, depth) == Some(p)
    ensures depth == 0
  {
  }

  // --- what was written is accepted ------------------------------------------------------------

  lemma SpellHead(xs: seq<Lexeme>)
    requires xs != [] && xs[0].Char?
    ensures Spell(xs) != [] && Spell(xs)[0] == xs[0].c
    decreases |xs|
  {
    if |xs| == 1 {
      assert Spell(xs[..0]) == [];
    } else {
      assert xs[..|xs| - 1][0] == xs[0];
      SpellHead(xs[..|xs| - 1]);
    }
  }

  lemma ValueHead(v: LooseValue, c: char, rest: string)
    requires LooseOk(v) && (c == ',' || c == '}')
    ensures var h := CharAt(WriteValue(v, [c] + rest), 0); !Blank(h) && (h == '"' <==> v.Whole?)
  {
    hide Bracketed, Level, Spell;
    if v.Pieces? {
      if v.xs == [] {
        assert Spell(v.xs) == [] by { EmptySpell(); }
        assert Spell(v.xs) + ([c] + rest) == [c] + rest;
      } else {
        SpellHead(v.xs);
        HeadOk(v.xs);
      }
    }
  }

  lemma EmptySpell()
    ensures Spell([]) == []
  {
  }

  lemma HeadOk(xs: seq<Lexeme>)
    requires xs != [] && Bracketed(xs)
    ensures xs[0].Char? ==> xs[0].c != '"'
  {
    assert LexemeOk(xs[0], Level(xs[..0]));
  }

  lemma LooseReads(t: string, v: LooseValue, c: char, rest: string)
    requires LooseOk(v) && (c == ',' || c == '}') && Left(t, WriteValue(v, [c] + rest))
    ensures Left(t, [c] + rest)
    ensures var r := ValueOf(t, Pos(t, WriteValue(v, [c] + rest)));
            r.Some? && r.value.found == AskedBy(v) && Skip(t, r.value.at) == Pos(t, [c] + rest)
  {
    hide ValueEnd, RawText, Closing, Class, Quoted, Spell, Bracketed, Level, Skip, Blanks;
    var i := Pos(t, WriteValue(v, [c] + rest));
    ValueHead(v, c, rest);
    assert CharAt(t, i) == CharAt(WriteValue(v, [c] + rest), 0);
    match v {
      case Whole(raw, post) =>
        StringAt(t, raw, post + ([c] + rest));
        SkipBehind(t, post, [c] + rest);
      case Pieces(xs) =>
        Past(t, Spell(xs), [c] + rest);
        PassPieces(t, i, xs);
        Stops(t, c, rest);
    }
  }

  lemma PairReads(t: string, p: Pair, c: char, rest: string, found: int)
    requires PairOk(p) && (c == ',' || c == '}') && Left(t, WritePair(p, [c] + rest))
    ensures Left(t, [c] + rest)
    ensures var q := Skip(t, Pos(t, WritePair(p, [c] + rest)));
            && CharAt(t, q) == '"'
            && Member(t, q, found) ==
               Some(Found(if IsRequest(p.key) then AskedBy(p.value) else found, Pos(t, [c] + rest)))
  {
    hide Left, Pos, WriteValue, LooseOk, Closing, RawText, Skip, ValueOf, Quoted, AskedBy, Blanks;
    var written := WriteValue(p.value, [c] + rest);
    KeyReads(t, p.pre, p.key, p.mid + ([':'] + (p.lead + written)));
    ColonReads(t, p.mid, p.lead + written);
    ValueHead(p.value, c, rest);
    SkipBehind(t, p.lead, written);
    LooseReads(t, p.value, c, rest);
    hide WritePair;
    MemberIs(t, Skip(t, Pos(t, WritePair(p, [c] + rest))), p.key, Pos(t, p.lead + written) - 1, found);
  }

  /** A member whose key was scanned. */
  lemma MemberIs(t: string, q: nat, key: string, colon: nat, found: int)
    requires StringIs(t, q, key) && colon == Skip(t, q + 2 + |key|) && CharAt(t, colon) == ':'
    requires ValueOf(t, Skip(t, colon + 1)).Some?
    ensures CharAt(t, q) == '"'
    ensures var r := ValueOf(t, Skip(t, colon + 1)).value;
            Member(t, q, found) == Some(Found(if IsRequest(key) then r.found else found, Skip(t, r.at)))
  {
    hide Closing, Skip, ValueOf, IsRequest, Member;
    MemberAt(t, q, q + 1 + |key|, found);
  }

  lemma {:induction false} PairsRead(t: string, ps: seq<Pair>, trail: string, found: int)
    requires ps != [] && (forall k :: 0 <= k < |ps| ==> PairOk(ps[k])) && Left(t, WritePairs(ps, ['}'] + trail))
    ensures Left(t, ['}'] + trail)
    ensures var q := Skip(t, Pos(t, WritePairs(ps, ['}'] + trail)));
            && CharAt(t, q) == '"'
            && Members(t, q, found) == Some(Found(LastAsked(ps, found), Pos(t, ['}'] + trail)))
    decreases |ps|
  {
    hide Left, Pos, WritePair, Skip, Member, AskedBy, PairOk;
    var p := ps[0];
    if |ps| == 1 {
      PairReads(t, p, '}', trail, found);
      PastOne(t, '}', trail);
    } else {
      var more := WritePairs(ps[1..], ['}'] + trail);
      PairReads(t, p, ',', more, found);
      PastOne(t, ',', more);
      PairsRead(t, ps[1..], trail, if IsRequest(p.key) then AskedBy(p.value) else found);
    }
  }

  lemma {:induction false} EndRead(t: string, p: nat)
    requires p <= |t|
    ensures Ends(t[p..]) <==> CharAt(t, Skip(t, p)) == NUL
  {
    var s, q := t[p..], Skip(t, p);
    if Ends(s) {
      var k :| 0 <= k <= |s| && Blanks(s[..k]) && CharAt(s, k) == NUL;
      assert forall i :: p <= i < p + k ==> t[i] == s[..k][i - p];
      assert CharAt(t, p + k) == NUL;
      assert q == p + k;
    }
    if CharAt(t, q) == NUL {
      assert CharAt(s, q - p) == NUL;
      assert Blanks(s[..q - p]);
    }
  }

  lemma WrittenAccepted(t: string, lead: string, ps: seq<Pair>, trail: string)
    requires Writes(t, lead, ps, trail)
    ensures Parsed(t) == LastAsked(ps, NONE)
  {
    hide WritePairs, PairOk, Skip, Members, LastAsked, Left, Pos, Ends, Object;
    var inside := WritePairs(ps, ['}'] + trail);
    AllLeft(t);
    ObjectReads(t, lead, inside);
    PairsRead(t, ps, trail, NONE);
    PastOne(t, '}', trail);
    LeftIsRest(t, trail);
    EndRead(t, Pos(t, trail));
  }

  lemma LeftIsRest(t: string, s: string)
    requires Left(t, s)
    ensures t[Pos(t, s)..] == s
  {
  }

  // --- what is accepted was written -----------------------------------------------------------

  /** The blanks in front. */
  lemma BlanksOf(t: string, p: nat) returns (ws: string)
    requires p <= |t|
    ensures Blanks(ws) && t[p..] == ws + t[Skip(t, p)..]
  {
    ws := t[p..Skip(t, p)];
  }

  lemma StringOf(t: string, p: nat) returns (raw: string)
    requires CharAt(t, p) == '"' && Closing(t, p + 1).Some?
    ensures var q := Closing(t, p + 1).value;
            RawText(raw) && raw == t[p + 1..q] && t[p..] == Quoted(raw, t[q + 1..])
  {
    var q := Closing(t, p + 1).value;
    raw := t[p + 1..q];
    ClosingIs(t, p + 1);
    hide Closing, RawText;
    assert t[p..] == ['"'] + (raw + (['"'] + t[q + 1..]));
  }

  lemma ValueTaken(t: string, p: nat) returns (v: LooseValue)
    requires p <= |t| && !Blank(CharAt(t, p)) && ValueOf(t, p).Some?
    ensures LooseOk(v) && ValueOf(t, p).value.found == AskedBy(v)
    ensures t[p..] == WriteValue(v, t[Skip(t, ValueOf(t, p).value.at)..])
  {
    hide RawText, Closing, Class, Quoted, Skip, ValueEnd, Blanks, Bracketed, Spell, Level;
    if CharAt(t, p) == '"' {
      var raw, post := WholeTaken(t, p);
      v := Whole(raw, post);
    } else {
      var xs := PiecesTaken(t, p);
      v := Pieces(xs);
      EndStays(t, p, ValueEnd(t, p, 0).value);
    }
  }

  lemma WholeTaken(t: string, p: nat) returns (raw: string, post: string)
    requires CharAt(t, p) == '"' && Closing(t, p + 1).Some?
    ensures var q := Closing(t, p + 1).value;
            && RawText(raw) && Blanks(post) && raw == t[p + 1..q]
            && t[p..] == Quoted(raw, post + t[Skip(t, q + 1)..])
  {
    hide RawText, Closing, Quoted, Skip, Blanks;
    raw := StringOf(t, p);
    post := BlanksOf(t, Closing(t, p + 1).value + 1);
  }

  lemma PiecesTaken(t: string, p: nat) returns (xs: seq<Lexeme>)
    requires p <= |t| && !Blank(CharAt(t, p)) && CharAt(t, p) != '"' && ValueEnd(t, p, 0).Some?
    ensures LooseOk(Pieces(xs)) && t[p..] == Spell(xs) + t[ValueEnd(t, p, 0).value..]
  {
    hide ValueEnd, Bracketed, Spell, Level;
    var e := ValueEnd(t, p, 0).value;
    NoLexemes(t, p);
    xs := PiecesOf(t, p, p, []);
    assert t[p..] == t[p..e] + t[e..];
  }

  lemma NoLexemes(t: string, p: nat)
    requires p <= |t|
    ensures Bracketed([]) && Level([]) == 0 && t[p..p] == Spell([])
  {
  }

  lemma EndStays(t: string, p: nat, e: nat)
    requires p <= |t| && ValueEnd(t, p, 0) == Some(e)
    ensures Skip(t, e) == e
  {
  }

  function Rest(t: string, k: nat): string
    requires k <= |t|
  {
    t[k..]
  }

  lemma KeyTaken(t: string, from: nat) returns (pre: string, key: string)
    requires from <= |t| && CharAt(t, Skip(t, from)) == '"' && Closing(t, Skip(t, from) + 1).Some?
    ensures var q := Skip(t, from);
            var close := Closing(t, q + 1).value;
            && Blanks(pre) && RawText(key) && key == t[q + 1..close]
            && Rest(t, from) == pre + Quoted(key, Rest(t, close + 1))
  {
    hide RawText, Closing, Quoted, Skip, Blanks;
    pre := BlanksOf(t, from);
    key := StringOf(t, Skip(t, from));
  }

  lemma ColonTaken(t: string, from: nat) returns (mid: string)
    requires from <= |t| && CharAt(t, Skip(t, from)) == ':'
    ensures Blanks(mid) && Rest(t, from) == mid + ([':'] + Rest(t, Skip(t, from) + 1))
  {
    hide Skip, Blanks;
    mid := BlanksOf(t, from);
    CutOne(t, Skip(t, from));
  }

  lemma LeadTaken(t: string, from: nat) returns (lead: string, v: LooseValue)
    requires from <= |t| && ValueOf(t, Skip(t, from)).Some?
    ensures var r := ValueOf(t, Skip(t, from)).value;
            && Blanks(lead) && LooseOk(v) && r.found == AskedBy(v)
            && Rest(t, from) == lead + WriteValue(v, Rest(t, Skip(t, r.at)))
  {
    hide Skip, Blanks, ValueOf, LooseOk, AskedBy, WriteValue;
    lead := BlanksOf(t, from);
    v := ValueTaken(t, Skip(t, from));
  }

  /** What stands behind a key. */
  lemma TailTaken(t: string, from: nat) returns (mid: string, lead: string, v: LooseValue)
    requires from <= |t| && CharAt(t, Skip(t, from)) == ':' && ValueOf(t, Skip(t, Skip(t, from) + 1)).Some?
    ensures var r := ValueOf(t, Skip(t, Skip(t, from) + 1)).value;
            && Blanks(mid) && Blanks(lead) && LooseOk(v) && r.found == AskedBy(v)
            && Rest(t, from) == mid + ([':'] + (lead + WriteValue(v, Rest(t, Skip(t, r.at)))))
  {
    hide Rest, Skip, Blanks, ValueOf, LooseOk, AskedBy, WriteValue;
    mid := ColonTaken(t, from);
    lead, v := LeadTaken(t, Skip(t, from) + 1);
  }

  lemma PairTaken(t: string, from: nat, found: int) returns (p: Pair)
    requires from <= |t| && CharAt(t, Skip(t, from)) == '"' && Member(t, Skip(t, from), found).Some?
    ensures var m := Member(t, Skip(t, from), found).value;
            && PairOk(p) && m.found == (if IsRequest(p.key) then AskedBy(p.value) else found)
            && Rest(t, from) == WritePair(p, Rest(t, m.at))
  {
    hide RawText, Closing, Quoted, Skip, ValueOf, AskedBy, WriteValue, LooseOk, Blanks, Rest, IsRequest;
    var close, colon := MemberParts(t, Skip(t, from), found);
    hide Member;
    var pre, key := KeyTaken(t, from);
    var mid, lead, value := TailTaken(t, close + 1);
    p := Pair(pre, key, mid, lead, value);
  }

  lemma CutOne(t: string, k: nat)
    requires k < |t|
    ensures t[k..] == [t[k]] + t[k + 1..]
  {
  }

  lemma {:induction false} PairsTaken(t: string, from: nat, found: int) returns (ps: seq<Pair>)
    requires from <= |t| && CharAt(t, Skip(t, from)) == '"' && Members(t, Skip(t, from), found).Some?
    ensures var r := Members(t, Skip(t, from), found).value;
            && ps != [] && (forall i :: 0 <= i < |ps| ==> PairOk(ps[i]))
            && r.found == LastAsked(ps, found) && t[from..] == WritePairs(ps, t[r.at..])
    decreases |t| - from
  {
    hide Skip, Member, PairOk, WritePair, AskedBy;
    var q := Skip(t, from);
    var m := Member(t, q, found).value;
    var p := PairTaken(t, from, found);
    if CharAt(t, m.at) == ',' {
      var more := PairsTaken(t, m.at + 1, m.found);
      ps := [p] + more;
      assert ps[1..] == more;
      assert t[m.at..] == [','] + t[m.at + 1..];
    } else {
      ps := [p];
      assert ps[1..] == [];
    }
  }

  lemma AcceptedWritten(t: string) returns (lead: string, ps: seq<Pair>, trail: string)
    requires Parsed(t) != NONE
    ensures Writes(t, lead, ps, trail)
  {
    hide Skip, PairOk, WritePairs, Ends, LastAsked, Blanks, Members, Object, Parsed, Writes;
    var p, k := AcceptedParts(t);
    ps := PairsTaken(t, p + 1, NONE);
    lead := BlanksOf(t, 0);
    trail := t[k + 1..];
    EndRead(t, k + 1);
    Taken(t, p, k, lead, ps);
  }

  /** Where the brace opens and where it closes. */
  lemma AcceptedParts(t: string) returns (p: nat, k: nat)
    requires Parsed(t) != NONE
    ensures p == Skip(t, 0) < |t| && t[p] == '{' && CharAt(t, Skip(t, p + 1)) == '"'
    ensures k < |t| && t[k] == '}' && CharAt(t, Skip(t, k + 1)) == NUL
    ensures Members(t, Skip(t, p + 1), NONE).Some? && Members(t, Skip(t, p + 1), NONE).value.at == k
  {
    hide Skip, Member;
    p, k := Skip(t, 0), Object(t).value.at;
  }

  lemma Taken(t: string, p: nat, k: nat, lead: string, ps: seq<Pair>)
    requires p < |t| && Blanks(lead) && t[0..] == lead + t[p..] && t[p] == '{'
    requires k < |t| && t[k] == '}' && Ends(t[k + 1..])
    requires ps != [] && (forall i :: 0 <= i < |ps| ==> PairOk(ps[i])) && t[p + 1..] == WritePairs(ps, t[k..])
    ensures Writes(t, lead, ps, t[k + 1..])
  {
    hide PairOk, WritePairs, Ends, Blanks;
    assert t[0..] == t;
    CutOne(t, p);
    CutOne(t, k);
  }

  /**
   * The texts that make a request are those written by the grammar with a member called
   * request, and its last one decides which; the blanks and members may be anything.
   */
  lemma AcceptedExact(t: string)
    ensures Parsed(t) != NONE <==> exists lead, ps, trail :: Writes(t, lead, ps, trail) && LastAsked(ps, NONE) != NONE
    ensures forall lead, ps, trail :: Writes(t, lead, ps, trail) ==> Parsed(t) == LastAsked(ps, NONE)
  {
    hide Writes, LastAsked;
    forall lead, ps, trail | Writes(t, lead, ps, trail)
      ensures Parsed(t) == LastAsked(ps, NONE)
    {
      WrittenAccepted(t, lead, ps, trail);
    }
    if Parsed(t) != NONE {
      var lead, ps, trail := AcceptedWritten(t);
    }
  }

  /** It is one exactly if some member is called so. */
  lemma {:induction false} LastAskedSome(ps: seq<Pair>, found: int)
    ensures LastAsked(ps, found) != NONE <==> found != NONE || exists i :: 0 <= i < |ps| && IsRequest(ps[i].key)
  {
    if ps != [] {
      var p := ps[0];
      var now := if IsRequest(p.key) then AskedBy(p.value) else found;
      LastAskedSome(ps[1..], now);
      assert forall i :: 0 < i < |ps| ==> ps[i] == ps[1..][i - 1];
      assert forall i :: 0 <= i < |ps| - 1 ==> ps[1..][i] == ps[i + 1];
    }
  }

  // --- what it does not check ---------------------------------------------------------------

  /** A member without a value is taken for one. */
  lemma EmptyValueTaken()
    ensures Parsed("{\"request\":}") == UNKNOWN
  {
    hide Parsed;
    var ps := [Pair("", "request", "", "", Pieces([]))];
    assert WritePairs(ps, "}") == Quoted("request", ":}");
    assert Blanks("") && Ends("") by { assert Blanks(""[..0]); }
    WrittenAccepted("{\"request\":}", "", ps, "");
  }
}
