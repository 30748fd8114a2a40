// Which request a PUT on a job makes: src/jobreq.c. A text ends where the string does,
// or at a NUL in it. A scanner's result is the position it stops at.
module JobReq {
  import opened Suffixes
  import opened Wrappers

  const NONE := 0
  const UNKNOWN := 1
  const CANCEL := 2
  const HOLD := 3
  const RELEASE := 4

  const NUL: char := '\0'

  function CharAt(t: string, p: nat): char { if p < |t| then t[p] else NUL }

  predicate Blank(c: char) { NUL < c <= ' ' }

  /** skip_ws() */
  function Skip(t: string, p: nat): (q: nat)
    requires p <= |t|
    ensures p <= q <= |t| && !Blank(CharAt(t, q))
    ensures forall k :: p <= k < q ==> Blank(t[k])
    decreases |t| - p
  {
    if Blank(CharAt(t, p)) then Skip(t, p + 1) else p
  }

  /** scan_string() behind the opening quote: the closing quote. */
  function Closing(t: string, p: nat): (r: Option<nat>)
    requires p <= |t|
    ensures r.Some? ==> p <= r.value < |t| && t[r.value] == '"'
    decreases |t| - p
  {
    if CharAt(t, p) == NUL then None
    else if t[p] == '"' then Some(p)
    else if t[p] == '\\' then (if CharAt(t, p + 1) == NUL then None else Closing(t, p + 2))
    else Closing(t, p + 1)
  }

  predicate Opens(c: char) { c == '{' || c == '[' }

  predicate Closes(c: char) { c == '}' || c == ']' }

  /** skip_value(): the ',' or '}' that ends the value. */
  function ValueEnd(t: string, p: nat, depth: nat): (r: Option<nat>)
    requires p <= |t|
    ensures r.Some? ==> p <= r.value < |t| && (t[r.value] == ',' || t[r.value] == '}')
    decreases |t| - p
  {
    if CharAt(t, p) == NUL then None
    else if t[p] == '"' then
      var c := Closing(t, p + 1);
      if c.None? then None else ValueEnd(t, c.value + 1, depth)
    else if Opens(t[p]) then ValueEnd(t, p + 1, depth + 1)
    else if Closes(t[p]) then
      if depth > 0 then ValueEnd(t, p + 1, depth - 1) else if t[p] == '}' then Some(p) else None
    else if t[p] == ',' && depth == 0 then Some(p)
    else ValueEnd(t, p + 1, depth)
  }

  /** What a request's value asks for. */
  function Class(raw: string): int
  {
    if raw == "cancel" then CANCEL else if raw == "hold" then HOLD else if raw == "release" then RELEASE else UNKNOWN
  }

  predicate IsRequest(key: string) { key == "request" }

  /** What has been found, and where the scan stands. */
  datatype Found = Found(found: int, at: nat)

  /** A value: what it would ask for. */
  function ValueOf(t: string, p: nat): (r: Option<Found>)
    requires p <= |t|
    ensures r.Some? ==> p <= r.value.at <= |t|
  {
    if CharAt(t, p) == '"' then
      var c := Closing(t, p + 1);
      if c.None? then None else Some(Found(Class(t[p + 1..c.value]), c.value + 1))
    else
      var e := ValueEnd(t, p, 0);
      if e.None? then None else Some(Found(UNKNOWN, e.value))
  }

  /** One member from its key's quote on, up to what follows it. */
  function Member(t: string, p: nat, found: int): (r: Option<Found>)
    requires CharAt(t, p) == '"'
    ensures r.Some? ==> p < r.value.at <= |t|
  {
    var key := Closing(t, p + 1);
    if key.None? then None else
    var colon := Skip(t, key.value + 1);
    if CharAt(t, colon) != ':' then None else
    var v := ValueOf(t, Skip(t, colon + 1));
    if v.None? then None else
    Some(Found(if IsRequest(t[p + 1..key.value]) then v.value.found else found, Skip(t, v.value.at)))
  }

  /** The members up to the closing brace. */
  function Members(t: string, p: nat, found: int): (r: Option<Found>)
    requires p <= |t|
    ensures r.Some? ==> p <= r.value.at < |t| && t[r.value.at] == '}'
    decreases |t| - p
  {
    if CharAt(t, p) == '}' then Some(Found(found, p))
    else if CharAt(t, p) != '"' then None
    else
      var m := Member(t, p, found);
      if m.None? then None
      else if CharAt(t, m.value.at) == ',' then
        var next := Skip(t, m.value.at + 1);
        if CharAt(t, next) != '"' then None else Members(t, next, m.value.found)
      else if CharAt(t, m.value.at) == '}' then m
      else None
  }

  /** The object up to its closing brace. */
  function Object(t: string): (r: Option<Found>)
    ensures r.Some? ==> r.value.at < |t| && t[r.value.at] == '}'
  {
    var p := Skip(t, 0);
    if CharAt(t, p) != '{' then None else Members(t, Skip(t, p + 1), NONE)
  }

  function Parsed(t: string): int
  {
    var o := Object(t);
    if o.None? || CharAt(t, Skip(t, o.value.at + 1)) != NUL then NONE else o.value.found
  }

  // --- the scanners ---------------------------------------------------------------------

  method SkipBlanks(t: string, from: nat) returns (p: nat)
    requires from <= |t|
    ensures p == Skip(t, from)
  {
    p := from;
    while Blank(CharAt(t, p))
      invariant from <= p <= |t| && Skip(t, p) == Skip(t, from)
      decreases |t| - p
    {
      p := p + 1;
    }
  }

  /** The position of the closing quote of the string opened at open. */
  method ScanString(t: string, open: nat) returns (close: Option<nat>)
    requires open < |t|
    ensures close == Closing(t, open + 1)
  {
    var p := open + 1;
    while CharAt(t, p) != NUL && t[p] != '"'
      invariant open < p <= |t| && Closing(t, p) == Closing(t, open + 1)
      decreases |t| - p
    {
      if t[p] == '\\' {
        p := p + 1;
        if CharAt(t, p) == NUL {
          return None;
        }
      }
      p := p + 1;
    }
    return if CharAt(t, p) != '"' then None else Some(p);
  }

  method SkipValue(t: string, from: nat) returns (end: Option<nat>)
    requires from <= |t|
    ensures end == ValueEnd(t, from, 0)
  {
    var p, depth := from, 0;
    while CharAt(t, p) != NUL
      invariant from <= p <= |t| && depth >= 0
      invariant ValueEnd(t, p, depth) == ValueEnd(t, from, 0)
      decreases |t| - p
    {
      if t[p] == '"' {
        var close := ScanString(t, p);
        if close.None? {
          return None;
        }
        p := close.value + 1;
        continue;
      }
      if Opens(t[p]) {
        depth := depth + 1;
      } else if Closes(t[p]) {
        if depth == 0 {
          return if t[p] == '}' then Some(p) else None;
        }
        depth := depth - 1;
      } else if t[p] == ',' && depth == 0 {
        return Some(p);
      }
      p := p + 1;
    }
    return None;
  }

  /** One pass of the member loop, up to the ',' or '}'. */
  method ReadMember(t: string, from: nat, found: int) returns (m: Option<Found>)
    requires CharAt(t, from) == '"'
    ensures m == Member(t, from, found)
  {
    hide Skip, Closing, ValueEnd;
    var close := ScanString(t, from);
    if close.None? {
      return None;
    }
    var isRequest := IsRequest(t[from + 1..close.value]);
    var p := SkipBlanks(t, close.value + 1);
    if CharAt(t, p) != ':' {
      return None;
    }
    p := SkipBlanks(t, p + 1);
    var asked := UNKNOWN;
    if CharAt(t, p) == '"' {
      close := ScanString(t, p);
      if close.None? {
        return None;
      }
      asked := Class(t[p + 1..close.value]);
      p := close.value + 1;
    } else {
      var end := SkipValue(t, p);
      if end.None? {
        return None;
      }
      p := end.value;
    }
    p := SkipBlanks(t, p);
    return Some(Found(if isRequest then asked else found, p));
  }

  /** jobreq_parse() */
  method Parse(body: Option<string>) returns (rc: int)
    ensures rc == if body.None? then NONE else Parsed(body.value)
  {
    hide Member, Skip;
    if body.None? {
      return NONE;
    }
    var t, found := body.value, NONE;
    var p := SkipBlanks(t, 0);
    if CharAt(t, p) != '{' {
      return NONE;
    }
    p := SkipBlanks(t, p + 1);
    while CharAt(t, p) != '}'
      invariant p <= |t| && Members(t, p, found) == Object(t)
      decreases |t| - p
    {
      if CharAt(t, p) != '"' {
        return NONE;
      }
      var m := ReadMember(t, p, found);
      if m.None? {
        return NONE;
      }
      found, p := m.value.found, m.value.at;
      if CharAt(t, p) == ',' {
        p := SkipBlanks(t, p + 1);
        if CharAt(t, p) != '"' {
          return NONE;
        }
      } else if CharAt(t, p) != '}' {
        return NONE;
      }
    }
    var end := SkipBlanks(t, p + 1);
    return if CharAt(t, end) != NUL then NONE else found;
  }

  // --- a text longer or shorter ------------------------------------------------------------

  lemma {:induction false} SkipGrows(u: string, t: string, p: nat)
    requires u <= t && p <= |u| && Skip(u, p) < |u|
    ensures Skip(t, p) == Skip(u, p)
    decreases |u| - p
  {
    if Blank(CharAt(u, p)) {
      SkipGrows(u, t, p + 1);
    }
  }

  lemma {:induction false} ClosingGrows(u: string, t: string, p: nat)
    requires u <= t && p <= |u| && Closing(u, p).Some?
    ensures Closing(t, p) == Closing(u, p)
    decreases |u| - p
  {
    if u[p] == '\\' {
      ClosingGrows(u, t, p + 2);
    } else if u[p] != '"' {
      ClosingGrows(u, t, p + 1);
    }
  }

  lemma {:induction false} ValueEndGrows(u: string, t: string, p: nat, depth: nat)
    requires u <= t && p <= |u| && ValueEnd(u, p, depth).Some?
    ensures ValueEnd(t, p, depth) == ValueEnd(u, p, depth)
    decreases |u| - p
  {
    hide Closing;
    var c := u[p];
    if c == '"' {
      ClosingGrows(u, t, p + 1);
      ValueEndGrows(u, t, Closing(u, p + 1).value + 1, depth);
    } else if Opens(c) {
      ValueEndGrows(u, t, p + 1, depth + 1);
    } else if Closes(c) {
      if depth > 0 {
        ValueEndGrows(u, t, p + 1, depth - 1);
      }
    } else if c != ',' || depth > 0 {
      ValueEndGrows(u, t, p + 1, depth);
    }
  }

  lemma SliceGrows(u: string, t: string, a: nat, b: nat)
    requires u <= t && a <= b <= |u|
    ensures u[a..b] == t[a..b]
  {
  }

  lemma ValueGrows(u: string, t: string, p: nat)
    requires u <= t && p <= |u| && ValueOf(u, p).Some?
    ensures ValueOf(t, p) == ValueOf(u, p)
  {
    hide Closing, ValueEnd, Class;
    if CharAt(u, p) == '"' {
      ClosingGrows(u, t, p + 1);
      SliceGrows(u, t, p + 1, Closing(u, p + 1).value);
    } else {
      ValueEndGrows(u, t, p, 0);
    }
  }

  /** The parts of a member read. */
  lemma MemberParts(t: string, q: nat, found: int) returns (close: nat, colon: nat)
    requires CharAt(t, q) == '"' && Member(t, q, found).Some?
    ensures Closing(t, q + 1) == Some(close) && close < |t| && Skip(t, close + 1) == colon && CharAt(t, colon) == ':'
    ensures ValueOf(t, Skip(t, colon + 1)).Some?
    ensures var r, m := ValueOf(t, Skip(t, colon + 1)).value, Member(t, q, found).value;
            m.at == Skip(t, r.at) && m.found == if IsRequest(t[q + 1..close]) then r.found else found
  {
    hide Closing, Skip, ValueOf, IsRequest;
    close := Closing(t, q + 1).value;
    colon := Skip(t, close + 1);
  }

  /** A member from its parts. */
  lemma MemberAt(t: string, q: nat, close: nat, found: int)
    requires CharAt(t, q) == '"' && Closing(t, q + 1) == Some(close) && close < |t|
    requires var colon := Skip(t, close + 1); CharAt(t, colon) == ':' && ValueOf(t, Skip(t, colon + 1)).Some?
    ensures var r := ValueOf(t, Skip(t, Skip(t, close + 1) + 1)).value;
            Member(t, q, found) ==
              Some(Found(if IsRequest(t[q + 1..close]) then r.found else found, Skip(t, r.at)))
  {
    hide Closing, Skip, ValueOf, IsRequest;
  }

  lemma MemberGrows(u: string, t: string, p: nat, found: int)
    requires u <= t && CharAt(u, p) == '"' && Member(u, p, found).Some? && Member(u, p, found).value.at < |u|
    ensures CharAt(t, p) == '"' && Member(t, p, found) == Member(u, p, found)
  {
    hide Skip, Closing, ValueOf, IsRequest, Member;
    var key, colon := MemberParts(u, p, found);
    ClosingGrows(u, t, p + 1);
    SliceGrows(u, t, p + 1, key);
    SkipGrows(u, t, key + 1);
    SkipGrows(u, t, colon + 1);
    ValueGrows(u, t, Skip(u, colon + 1));
    SkipGrows(u, t, ValueOf(u, Skip(u, colon + 1)).value.at);
    MemberAt(t, p, key, found);
  }

  lemma {:induction false} MembersGrow(u: string, t: string, p: nat, found: int)
    requires u <= t && p <= |u| && Members(u, p, found).Some?
    ensures Members(t, p, found) == Members(u, p, found)
    decreases |u| - p
  {
    hide Skip, Member;
    if CharAt(u, p) == '"' {
      var m := Member(u, p, found).value;
      MemberGrows(u, t, p, found);
      if CharAt(u, m.at) == ',' {
        SkipGrows(u, t, m.at + 1);
        MembersGrow(u, t, Skip(u, m.at + 1), m.found);
      }
    }
  }

  /** An object complete in a prefix of the text is the text's object. */
  lemma ObjectGrows(u: string, t: string)
    requires u <= t && Object(u).Some?
    ensures Object(t) == Object(u)
  {
    hide Skip, Members;
    SkipGrows(u, t, 0);
    SkipGrows(u, t, Skip(u, 0) + 1);
    MembersGrow(u, t, Skip(u, Skip(u, 0) + 1), NONE);
  }

  /**
   * An accepted text ends in a closing brace and blanks; cut before the brace, or
   * with anything but blanks added, it is refused.
   */
  lemma AcceptedWhole(t: string)
    requires Parsed(t) != NONE && NUL !in t
    ensures var k := Object(t).value.at;
            && t[k] == '}'
            && (forall i :: k < i < |t| ==> Blank(t[i]))
            && (forall n :: 0 <= n <= k ==> Parsed(t[..n]) == NONE)
            && (forall e: string :: NUL !in e && (exists i :: 0 <= i < |e| && !Blank(e[i])) ==> Parsed(t + e) == NONE)
  {
    hide Object;
    var k := Object(t).value.at;
    var end := Skip(t, k + 1);
    assert end == |t|;
    forall n | 0 <= n <= k
      ensures Parsed(t[..n]) == NONE
    {
      if Object(t[..n]).Some? {
        ObjectGrows(t[..n], t);
      }
    }
    forall e: string | NUL !in e && exists i :: 0 <= i < |e| && !Blank(e[i])
      ensures Parsed(t + e) == NONE
    {
      ObjectGrows(t, t + e);
      var q := Skip(t + e, k + 1);
      var i :| 0 <= i < |e| && !Blank(e[i]);
      assert (t + e)[|t| + i] == e[i];
      assert q <= |t| + i;
      assert forall j :: 0 <= j < |t + e| ==> (t + e)[j] == if j < |t| then t[j] else e[j - |t|];
    }
  }

  // --- what a well-formed object is ----------------------------------------------------------

  /** A value as it is written; text fields hold the blanks before, between and behind. */
  datatype Value =
    | Text(raw: string)
    | Atom(chars: string)
    | Nested(curly: bool, before: string, parts: seq<Part>)

  datatype Part =
    | Element(pre: string, value: Value, post: string)
    | Keyed(pre: string, key: string, mid: string, lead: string, value: Value, post: string)

  /** The inside of a string: every quote in it escaped, and no escape left open. */
  predicate RawText(s: string)
  {
    if s == [] then true
    else if s[0] == '\\' then |s| > 1 && s[1] != NUL && RawText(s[2..])
    else s[0] != NUL && s[0] != '"' && RawText(s[1..])
  }

  predicate Blanks(s: string) { forall i :: 0 <= i < |s| ==> Blank(s[i]) }

  /** A character of a number or of true, false and null. */
  predicate Plain(c: char) { c > ' ' && c != '"' && c != ',' && !Opens(c) && !Closes(c) }

  predicate WellFormed(v: Value)
  {
    match v
    case Text(raw) => RawText(raw)
    case Atom(chars) => chars != [] && forall i :: 0 <= i < |chars| ==> Plain(chars[i])
    case Nested(curly, before, parts) =>
      Blanks(before) && forall i :: 0 <= i < |parts| ==> PartOk(parts[i], curly)
  }

  predicate PartOk(p: Part, keyed: bool)
  {
    && p.Keyed? == keyed && Blanks(p.pre) && Blanks(p.post) && WellFormed(p.value)
    && (p.Keyed? ==> RawText(p.key) && Blanks(p.mid) && Blanks(p.lead))
  }

  /** v, followed by rest. */
  function Print(v: Value, rest: string): string
    decreases v, 0
  {
    match v
    case Text(raw) => Quoted(raw, rest)
    case Atom(chars) => chars + rest
    case Nested(curly, before, parts) =>
      [if curly then '{' else '['] + (before + PrintParts(parts, [if curly then '}' else ']'] + rest))
  }

  function PrintParts(parts: seq<Part>, rest: string): string
    decreases parts, 1
  {
    if parts == [] then rest else
    PrintPart(parts[0], if |parts| == 1 then rest else [','] + PrintParts(parts[1..], rest))
  }

  function PrintPart(p: Part, rest: string): string
    decreases p, 0
  {
    match p
    case Element(pre, value, post) => pre + Print(value, post + rest)
    case Keyed(pre, key, mid, lead, value, post) =>
      pre + Quoted(key, mid + ([':'] + (lead + Print(value, post + rest))))
  }

  /** The class of the last member called request. */
  function LastRequest(parts: seq<Part>, found: int): int
  {
    if parts == [] then found else
    var p := parts[0];
    LastRequest(parts[1..],
      if p.Keyed? && IsRequest(p.key) then (if p.value.Text? then Class(p.value.raw) else UNKNOWN) else found)
  }

  // --- the scanners on what was printed --------------------------------------------------------

  /** Blanks are skipped up to what is not one. */
  lemma SkipBehind(t: string, ws: string, rest: string)
    requires Left(t, ws + rest) && Blanks(ws) && !Blank(CharAt(rest, 0))
    ensures Left(t, rest) && Skip(t, Pos(t, ws + rest)) == Pos(t, rest)
  {
    var i, j := Pos(t, ws + rest), Pos(t, rest);
    Past(t, ws, rest);
    assert rest != [] ==> rest[0] == t[j];
    assert forall k :: i <= k < j ==> t[k] == t[i..j][k - i];
  }

  lemma {:induction false} ClosingAt(t: string, i: nat, j: nat)
    requires i <= j < |t| && RawText(t[i..j]) && t[j] == '"'
    ensures Closing(t, i) == Some(j)
    decreases j - i
  {
    if i < j {
      var s := t[i..j];
      assert s[0] == t[i];
      if t[i] == '\\' {
        assert s[1] == t[i + 1] && s[2..] == t[i + 2..j];
        ClosingAt(t, i + 2, j);
      } else {
        assert s[1..] == t[i + 1..j];
        ClosingAt(t, i + 1, j);
      }
    }
  }

  /** A string and what follows it. */
  function Quoted(raw: string, rest: string): string { ['"'] + (raw + (['"'] + rest)) }

  lemma QuotedPast(t: string, raw: string, rest: string)
    requires Left(t, Quoted(raw, rest))
    ensures Left(t, rest)
    ensures var i, q := Pos(t, Quoted(raw, rest)), Pos(t, rest) - 1;
            i + 1 + |raw| == q < |t| && t[i] == '"' && t[q] == '"' && t[i + 1..q] == raw
  {
    var inner := raw + (['"'] + rest);
    PastOne(t, '"', inner);
    Past(t, raw, ['"'] + rest);
    PastOne(t, '"', rest);
  }

  /** A string with raw in it is scanned from i on. */
  ghost predicate StringIs(t: string, i: nat, raw: string)
  {
    var q := i + 1 + |raw|;
    q < |t| && CharAt(t, i) == '"' && Closing(t, i + 1) == Some(q) && t[i + 1..q] == raw
  }

  /** A string is scanned to its closing quote. */
  lemma StringAt(t: string, raw: string, rest: string)
    requires Left(t, Quoted(raw, rest)) && RawText(raw)
    ensures StringIs(t, Pos(t, Quoted(raw, rest)), raw)
    ensures Left(t, rest) && Pos(t, Quoted(raw, rest)) + |raw| + 2 == Pos(t, rest)
  {
    hide Closing, RawText, Left, Quoted, Pos;
    QuotedPast(t, raw, rest);
    var i := Pos(t, Quoted(raw, rest));
    ClosingAt(t, i + 1, i + 1 + |raw|);
  }

  /** Inside a value: neither a quote, a bracket, nor a comma. */
  predicate Inert(c: char) { c != NUL && c != '"' && c != ',' && !Opens(c) && !Closes(c) }

  lemma {:induction false} PassOver(t: string, i: nat, j: nat, depth: nat)
    requires i <= j <= |t| && forall k :: i <= k < j ==> Inert(t[k])
    ensures ValueEnd(t, i, depth) == ValueEnd(t, j, depth)
    decreases j - i
  {
    if i < j {
      PassOver(t, i + 1, j, depth);
    }
  }

  /** Skipping a value comes from s to rest, as deep inside as it was. */
  ghost predicate Passes(t: string, s: string, rest: string, depth: nat)
    requires Left(t, s)
  {
    Left(t, rest) && ValueEnd(t, Pos(t, s), depth) == ValueEnd(t, Pos(t, rest), depth)
  }

  predicate AllInert(a: string) { forall k :: 0 <= k < |a| ==> Inert(a[k]) }

  lemma PassBehind(t: string, a: string, rest: string, depth: nat)
    requires Left(t, a + rest) && AllInert(a)
    ensures Passes(t, a + rest, rest, depth)
  {
    hide ValueEnd;
    Past(t, a, rest);
    var i, j := Pos(t, a + rest), Pos(t, rest);
    assert forall k :: i <= k < j ==> t[k] == t[i..j][k - i];
    PassOver(t, i, j, depth);
  }

  lemma PassString(t: string, raw: string, rest: string, depth: nat)
    requires Left(t, Quoted(raw, rest)) && RawText(raw)
    ensures Passes(t, Quoted(raw, rest), rest, depth)
  {
    StringAt(t, raw, rest);
    hide Closing, Left, Quoted, RawText;
  }

  lemma Open(t: string, c: char, rest: string, depth: nat)
    requires Left(t, [c] + rest) && Opens(c)
    ensures Left(t, rest) && ValueEnd(t, Pos(t, [c] + rest), depth) == ValueEnd(t, Pos(t, rest), depth + 1)
  {
    PastOne(t, c, rest);
  }

  lemma Close(t: string, c: char, rest: string, depth: nat)
    requires Left(t, [c] + rest) && Closes(c)
    ensures Left(t, rest) && ValueEnd(t, Pos(t, [c] + rest), depth + 1) == ValueEnd(t, Pos(t, rest), depth)
  {
    PastOne(t, c, rest);
  }

  lemma Comma(t: string, rest: string, depth: nat)
    requires Left(t, [','] + rest) && depth > 0
    ensures Passes(t, [','] + rest, rest, depth)
  {
    PastOne(t, ',', rest);
  }

  lemma {:induction false} PassValue(t: string, v: Value, rest: string, depth: nat)
    requires WellFormed(v) && Left(t, Print(v, rest))
    ensures Passes(t, Print(v, rest), rest, depth)
    decreases v, 0
  {
    hide ValueEnd, RawText, Left, Quoted, PrintParts, Pos;
    match v {
      case Text(raw) =>
        PassString(t, raw, rest, depth);
      case Atom(chars) =>
        PassBehind(t, chars, rest, depth);
      case Nested(curly, before, parts) =>
        var close := [if curly then '}' else ']'] + rest;
        Open(t, if curly then '{' else '[', before + PrintParts(parts, close), depth);
        PassBehind(t, before, PrintParts(parts, close), depth + 1);
        PassParts(t, parts, curly, close, depth + 1);
        Close(t, if curly then '}' else ']', rest, depth);
    }
  }

  lemma {:induction false} PassParts(t: string, parts: seq<Part>, keyed: bool, rest: string, depth: nat)
    requires (forall k :: 0 <= k < |parts| ==> PartOk(parts[k], keyed)) && depth > 0
    requires Left(t, PrintParts(parts, rest))
    ensures Passes(t, PrintParts(parts, rest), rest, depth)
    decreases parts, 1
  {
    hide ValueEnd, PartOk, Left, Pos, PrintPart;
    if |parts| == 1 {
      PassPart(t, parts[0], keyed, rest, depth);
    } else if |parts| > 1 {
      PassPart(t, parts[0], keyed, [','] + PrintParts(parts[1..], rest), depth);
      Comma(t, PrintParts(parts[1..], rest), depth);
      PassParts(t, parts[1..], keyed, rest, depth);
    }
  }

  lemma {:induction false} PassPart(t: string, p: Part, keyed: bool, rest: string, depth: nat)
    requires PartOk(p, keyed) && Left(t, PrintPart(p, rest))
    ensures Passes(t, PrintPart(p, rest), rest, depth)
    decreases p, 0
  {
    hide ValueEnd, RawText, WellFormed, Left, Pos, Quoted, Print;
    match p {
      case Element(pre, value, post) =>
        PassBehind(t, pre, Print(value, post + rest), depth);
        PassValue(t, value, post + rest, depth);
        PassBehind(t, post, rest, depth);
      case Keyed(pre, key, mid, lead, value, post) =>
        var printed := Print(value, post + rest);
        PassBehind(t, pre, Quoted(key, mid + ([':'] + (lead + printed))), depth);
        PassString(t, key, mid + ([':'] + (lead + printed)), depth);
        PassBehind(t, mid, [':'] + (lead + printed), depth);
        PassBehind(t, [':'], lead + printed, depth);
        PassBehind(t, lead, printed, depth);
        PassValue(t, value, post + rest, depth);
        PassBehind(t, post, rest, depth);
    }
  }

  // --- the parser on what was printed -----------------------------------------------------------

  function Asked(v: Value): int { if v.Text? then Class(v.raw) else UNKNOWN }

  lemma PrintHead(v: Value, rest: string)
    requires WellFormed(v)
    ensures var c := CharAt(Print(v, rest), 0); !Blank(c) && (c == '"' <==> v.Text?)
  {
  }

  lemma ValueReads(t: string, v: Value, post: string, c: char, rest: string)
    requires WellFormed(v) && Blanks(post) && (c == ',' || c == '}')
    requires Left(t, Print(v, post + ([c] + rest)))
    ensures Left(t, [c] + rest)
    ensures var r := ValueOf(t, Pos(t, Print(v, post + ([c] + rest))));
            r.Some? && r.value.found == Asked(v) && Skip(t, r.value.at) == Pos(t, [c] + rest)
  {
    hide ValueEnd, RawText, Print, WellFormed, Closing, Class, Quoted;
    var behind := post + ([c] + rest);
    var i := Pos(t, Print(v, behind));
    PrintHead(v, behind);
    assert CharAt(t, i) == CharAt(Print(v, behind), 0);
    if v.Text? {
      TextPrinted(v, behind);
      StringAt(t, v.raw, behind);
      SkipBehind(t, post, [c] + rest);
    } else {
      PassValue(t, v, behind, 0);
      PassBehind(t, post, [c] + rest, 0);
      Stops(t, c, rest);
    }
  }

  lemma TextPrinted(v: Value, rest: string)
    requires v.Text? && WellFormed(v)
    ensures Print(v, rest) == Quoted(v.raw, rest) && RawText(v.raw)
  {
  }

  lemma Stops(t: string, c: char, rest: string)
    requires Left(t, [c] + rest) && (c == ',' || c == '}')
    ensures var p := Pos(t, [c] + rest); ValueEnd(t, p, 0) == Some(p) && Skip(t, p) == p && CharAt(t, p) == c
  {
    PastOne(t, c, rest);
  }

  lemma KeyReads(t: string, pre: string, key: string, rest: string)
    requires Blanks(pre) && RawText(key) && Left(t, pre + Quoted(key, rest))
    ensures Left(t, rest)
    ensures var q := Skip(t, Pos(t, pre + Quoted(key, rest)));
            StringIs(t, q, key) && q + 2 + |key| == Pos(t, rest) <= |t|
  {
    hide Left, Pos, RawText, Quoted, Skip, StringIs;
    QuoteHead(key, rest);
    SkipBehind(t, pre, Quoted(key, rest));
    StringAt(t, key, rest);
  }

  lemma ColonReads(t: string, mid: string, rest: string)
    requires Blanks(mid) && Left(t, mid + ([':'] + rest))
    ensures Left(t, rest)
    ensures Skip(t, Pos(t, mid + ([':'] + rest))) + 1 == Pos(t, rest) <= |t| && CharAt(t, Pos(t, rest) - 1) == ':'
  {
    hide Left, Pos, Skip;
    SkipBehind(t, mid, [':'] + rest);
    PastOne(t, ':', rest);
  }

  lemma PartReads(t: string, p: Part, c: char, rest: string, found: int)
    requires p.Keyed? && PartOk(p, true) && (c == ',' || c == '}')
    requires Left(t, PrintPart(p, [c] + rest))
    ensures Left(t, [c] + rest)
    ensures var q := Skip(t, Pos(t, PrintPart(p, [c] + rest)));
            && CharAt(t, q) == '"'
            && Member(t, q, found) ==
               Some(Found(if IsRequest(p.key) then Asked(p.value) else found, Pos(t, [c] + rest)))
  {
    hide Left, Pos, Print, WellFormed, Closing, RawText, Skip, ValueOf, Quoted, Asked;
    var printed := Print(p.value, p.post + ([c] + rest));
    KeyReads(t, p.pre, p.key, p.mid + ([':'] + (p.lead + printed)));
    ColonReads(t, p.mid, p.lead + printed);
    PrintHead(p.value, p.post + ([c] + rest));
    SkipBehind(t, p.lead, printed);
    ValueReads(t, p.value, p.post, c, rest);
    hide Print, PrintPart;
  }

  lemma QuoteHead(raw: string, rest: string)
    ensures CharAt(Quoted(raw, rest), 0) == '"'
  {
  }

  lemma {:induction false} MembersRead(t: string, parts: seq<Part>, trail: string, found: int)
    requires parts != [] && forall k :: 0 <= k < |parts| ==> PartOk(parts[k], true)
    requires Left(t, PrintParts(parts, ['}'] + trail))
    ensures Left(t, ['}'] + trail)
    ensures var q := Skip(t, Pos(t, PrintParts(parts, ['}'] + trail)));
            && CharAt(t, q) == '"'
            && Members(t, q, found) == Some(Found(LastRequest(parts, found), Pos(t, ['}'] + trail)))
    decreases |parts|
  {
    hide Left, Pos, PrintPart, Skip, Member, Asked;
    var p := parts[0];
    assert PartOk(p, true);
    hide PartOk;
    var now := if IsRequest(p.key) then Asked(p.value) else found;
    LastStep(parts, found);
    if |parts| == 1 {
      PartReads(t, p, '}', trail, found);
      PastOne(t, '}', trail);
    } else {
      var more := PrintParts(parts[1..], ['}'] + trail);
      PartReads(t, p, ',', more, found);
      PastOne(t, ',', more);
      MembersRead(t, parts[1..], trail, now);
    }
  }

  lemma LastStep(parts: seq<Part>, found: int)
    requires parts != [] && PartOk(parts[0], true)
    ensures var p := parts[0];
            p.Keyed? && LastRequest(parts, found)
                == LastRequest(parts[1..], if IsRequest(p.key) then Asked(p.value) else found)
    ensures LastRequest([], found) == found
  {
  }

  /** A well-formed object, with blanks around it, is answered by its last request member. */
  lemma ParsesPrinted(lead: string, before: string, parts: seq<Part>, trail: string)
    requires Blanks(lead) && Blanks(trail) && WellFormed(Nested(true, before, parts))
    ensures Parsed(lead + Print(Nested(true, before, parts), trail)) == LastRequest(parts, NONE)
  {
    hide PrintParts, PartOk, Skip, Members, LastRequest, Left, Pos, Object;
    var inside := before + PrintParts(parts, ['}'] + trail);
    var t := lead + (['{'] + inside);
    AllLeft(t);
    ObjectReads(t, lead, inside);
    InsideReads(t, before, parts, trail);
    TrailReads(t, trail);
  }

  /** The last of the members called "request" is the one at k. */
  ghost predicate LastIs(parts: seq<Part>, k: int)
  {
    && 0 <= k < |parts| && parts[k].Keyed? && parts[k].key == "request"
    && forall j :: k < j < |parts| && parts[j].Keyed? ==> parts[j].key != "request"
  }

  ghost predicate NoneAsked(parts: seq<Part>)
  {
    forall j :: 0 <= j < |parts| && parts[j].Keyed? ==> parts[j].key != "request"
  }

  lemma {:induction false} LastDecides(parts: seq<Part>, found: int)
    ensures NoneAsked(parts) ==> LastRequest(parts, found) == found
    ensures forall k :: LastIs(parts, k) ==>
              LastRequest(parts, found) ==
                var v := parts[k].value;
                if v == Text("cancel") then 2 else if v == Text("hold") then 3
                else if v == Text("release") then 4 else 1
    decreases |parts|
  {
    if parts != [] {
      var p, rest := parts[0], parts[1..];
      var asked := p.Keyed? && p.key == "request";
      var now := if asked then (if p.value.Text? then Class(p.value.raw) else UNKNOWN) else found;
      LastDecides(rest, now);
      assert forall j :: 1 <= j < |parts| ==> parts[j] == rest[j - 1];
      assert forall k :: 0 < k && LastIs(parts, k) ==> LastIs(rest, k - 1);
      assert NoneAsked(parts) ==> NoneAsked(rest);
      assert LastIs(parts, 0) ==> NoneAsked(rest);
    }
  }

  /**
   * The answers in numbers: 2 if the last member called "request" has the value "cancel",
   * 3 for "hold", 4 for "release", 1 for any other value, and 0 without such a member.
   */
  lemma RequestAnswered(lead: string, before: string, parts: seq<Part>, trail: string)
    requires Blanks(lead) && Blanks(trail) && WellFormed(Nested(true, before, parts))
    ensures var answer := Parsed(lead + Print(Nested(true, before, parts), trail));
            && (NoneAsked(parts) ==> answer == 0)
            && forall k :: LastIs(parts, k) ==>
                 answer ==
                   var v := parts[k].value;
                   if v == Text("cancel") then 2 else if v == Text("hold") then 3
                   else if v == Text("release") then 4 else 1
  {
    hide WellFormed, Print, LastRequest, Parsed;
    ParsesPrinted(lead, before, parts, trail);
    LastDecides(parts, NONE);
  }

  lemma ObjectReads(t: string, lead: string, inside: string)
    requires Left(t, lead + (['{'] + inside)) && Pos(t, lead + (['{'] + inside)) == 0 && Blanks(lead)
    ensures Left(t, inside) && Object(t) == Members(t, Skip(t, Pos(t, inside)), NONE)
  {
    hide Left, Pos, Skip, Members;
    SkipBehind(t, lead, ['{'] + inside);
    PastOne(t, '{', inside);
  }

  lemma InsideReads(t: string, before: string, parts: seq<Part>, trail: string)
    requires WellFormed(Nested(true, before, parts)) && Left(t, before + PrintParts(parts, ['}'] + trail))
    ensures Left(t, ['}'] + trail)
    ensures Members(t, Skip(t, Pos(t, before + PrintParts(parts, ['}'] + trail))), NONE)
         == Some(Found(LastRequest(parts, NONE), Pos(t, ['}'] + trail)))
  {
    assert forall k :: 0 <= k < |parts| ==> PartOk(parts[k], true);
    hide PrintParts, PartOk, Skip, Members, LastRequest, Left, Pos;
    SkipMore(t, before, PrintParts(parts, ['}'] + trail));
    if parts == [] {
      NoParts(['}'] + trail);
      Stops(t, '}', trail);
      PastOne(t, '}', trail);
    } else {
      MembersRead(t, parts, trail, NONE);
    }
  }

  /** Only blanks behind the closing brace. */
  lemma TrailReads(t: string, trail: string)
    requires Left(t, ['}'] + trail) && Blanks(trail)
    ensures Pos(t, ['}'] + trail) < |t| && CharAt(t, Skip(t, Pos(t, ['}'] + trail) + 1)) == NUL
  {
    PastOne(t, '}', trail);
    assert trail + [] == trail;
    SkipBehind(t, trail, []);
  }

  /** Blanks more or less before blanks. */
  lemma SkipMore(t: string, ws: string, rest: string)
    requires Left(t, ws + rest) && Blanks(ws)
    ensures Left(t, rest) && Skip(t, Pos(t, ws + rest)) == Skip(t, Pos(t, rest))
  {
    var i, j := Pos(t, ws + rest), Pos(t, rest);
    Past(t, ws, rest);
    assert forall k :: i <= k < j ==> t[k] == t[i..j][k - i];
    assert forall k :: i <= k < Skip(t, j) ==> Blank(t[k]);
  }

  lemma NoParts(rest: string)
    ensures PrintParts([], rest) == rest && LastRequest([], NONE) == NONE
    ensures forall t: string, p: nat :: p < |t| && t[p] == '}' ==> Members(t, p, NONE) == Some(Found(NONE, p))
  {
  }
}
