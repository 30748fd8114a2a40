// Documents built by the calls of src/json.c read back to what was put in: the one
// flag is_first places every comma.
module JsonDocument {
  import opened Bytes
  import opened Suffixes
  import opened Wrappers
  import opened Json

  /** A document, in the host's bytes or in the client's. Bare: a number, a truth value or null. */
  datatype Tree =
    | Object(members: seq<Member>)
    | Array(items: seq<Tree>)
    | Str(bytes: Text)
    | Bare(chars: Text)

  datatype Member = Member(key: Text, value: Tree)

  // --- what can be built -----------------------------------------------------------------

  /** For the client: nothing in the key needs an escape. */
  predicate PlainKey(k: Text) { forall i :: 0 <= i < |k| ==> Raw(k[i], true) }

  predicate BareByte(b: Byte)
  {
    b != QUOTE && b != COMMA && b != OPEN_ARRAY && b != CLOSE_ARRAY && b != OPEN_OBJECT && b != CLOSE_OBJECT
  }

  function DigitsEnd(t: Text, p: nat): (q: nat)
    requires p <= |t|
    ensures p <= q <= |t| && (forall i :: p <= i < q ==> 48 <= t[i] <= 57) && (q < |t| ==> !(48 <= t[q] <= 57))
    decreases |t| - p
  {
    if p < |t| && 48 <= t[p] <= 57 then DigitsEnd(t, p + 1) else p
  }

  /** Where a part of a number that starts with mark ends: at p if it is not there, none without a digit. */
  function PartEnd(t: Text, p: nat, from: nat): (q: Option<nat>)
    requires p <= |t|
    ensures q.Some? ==> p <= q.value <= |t|
    ensures q.Some? ==> q.value == p || (p < from < q.value && forall i :: from <= i < q.value ==> 48 <= t[i] <= 57)
  {
    if from <= p then Some(p) else if from >= |t| || DigitsEnd(t, from) == from then None else Some(DigitsEnd(t, from))
  }

  /** A number of section 6 of RFC 8259. */
  predicate NumberText(t: Text)
  {
    var a := if t != [] && t[0] == 45 then 1 else 0;
    var b := DigitsEnd(t, a);
    && a < b && (t[a] == 48 ==> b == a + 1)
    && var c := PartEnd(t, b, if b < |t| && t[b] == 46 then b + 1 else b);
    && c.Some?
    && var signed := c.value + 1 < |t| && (t[c.value + 1] == 43 || t[c.value + 1] == 45);
    && var exponent := c.value < |t| && (t[c.value] == 101 || t[c.value] == 69);
    && var d := PartEnd(t, c.value, if !exponent then c.value else if signed then c.value + 2 else c.value + 1);
    && d == Some(|t|)
  }

  /** What is written without quotes: a number, or one of the three names. */
  predicate BareText(t: Text)
  {
    t == Ascii("null") || t == Ascii("true") || t == Ascii("false") || NumberText(t)
  }

  predicate NumberByte(b: Byte) { 48 <= b <= 57 || b == 43 || b == 45 || b == 46 || b == 69 || b == 101 }

  predicate NumberBytesIn(t: Text, p: nat, q: nat)
    requires p <= q <= |t|
  {
    forall i :: p <= i < q ==> NumberByte(t[i])
  }

  lemma PartBytes(t: Text, p: nat, from: nat)
    requires p <= |t| && PartEnd(t, p, from).Some?
    requires forall i :: p <= i < from && i < |t| ==> NumberByte(t[i])
    ensures NumberBytesIn(t, p, PartEnd(t, p, from).value)
  {
  }

  lemma NumberBytes(t: Text)
    requires NumberText(t)
    ensures t != [] && NumberBytesIn(t, 0, |t|)
  {
    hide PartEnd;
    var a := if t != [] && t[0] == 45 then 1 else 0;
    var b := DigitsEnd(t, a);
    var fraction := if b < |t| && t[b] == 46 then b + 1 else b;
    var c := PartEnd(t, b, fraction).value;
    PartBytes(t, b, fraction);
    var signed := c + 1 < |t| && (t[c + 1] == 43 || t[c + 1] == 45);
    var exponent := c < |t| && (t[c] == 101 || t[c] == 69);
    PartBytes(t, c, if !exponent then c else if signed then c + 2 else c + 1);
    assert NumberBytesIn(t, 0, b);
  }

  /** Nothing in it ends it or starts another kind of value. */
  lemma BareBytes(t: Text)
    requires BareText(t)
    ensures t != [] && forall i :: 0 <= i < |t| ==> BareByte(t[i])
  {
    if NumberText(t) {
      NumberBytes(t);
    }
  }

  lemma {:induction false} DecimalDigits(n: nat)
    ensures forall i :: 0 <= i < |Decimal(n)| ==> '0' <= Decimal(n)[i] <= '9'
    ensures n >= 10 ==> Decimal(n)[0] != '0'
    ensures n < 10 ==> |Decimal(n)| == 1
    ensures n > 0 ==> Decimal(n)[0] != '0'
    decreases n
  {
    if n >= 10 {
      DecimalDigits(n / 10);
      DecimalDigits(n % 10);
    }
  }

  /** What addJsonNumber() and addJsonBool() write is a number or a name, on every host. */
  lemma PrintedIsBare(h: Host, n: int, b: bool)
    requires Faithful(h) && |h.etoa| == 256
    ensures BareText(Translated(h, Lit(h, Decimal(n))))
            && BareText(Translated(h, Lit(h, if b then "true" else "false")))
  {
    TranslatedLiteral(h, Decimal(n));
    TranslatedLiteral(h, if b then "true" else "false");
    hide Faithful, Translated, Lit;
    DecimalIsNumber(n);
  }

  lemma DecimalIsNumber(n: int)
    ensures NumberText(Ascii(Decimal(n)))
  {
    var m := if n < 0 then -n else n;
    DecimalDigits(m);
    var t, a := Ascii(Decimal(n)), if n < 0 then 1 else 0;
    assert n < 0 ==> Decimal(n) == "-" + Decimal(m);
    assert forall i :: a <= i < |t| ==> t[i] == Decimal(m)[i - a] as int;
    DigitsAll(t, a);
  }

  lemma {:induction false} DigitsAll(t: Text, p: nat)
    requires p <= |t| && forall i :: p <= i < |t| ==> 48 <= t[i] <= 57
    ensures DigitsEnd(t, p) == |t|
    decreases |t| - p
  {
    if p < |t| {
      DigitsAll(t, p + 1);
    }
  }

  /** An element of an array, or a whole document, by the calls there are. */
  predicate Buildable(h: Host, t: Tree)
    requires |h.etoa| == 256
    decreases t, 0
  {
    match t
    case Object(ms) => forall i :: 0 <= i < |ms| ==> MemberOk(h, ms[i])
    case Array(_) => false
    case Str(_) => true
    case Bare(chars) => chars == Lit(h, "null")
  }

  predicate MemberOk(h: Host, m: Member)
    requires |h.etoa| == 256
    decreases m, 0
  {
    && PlainKey(Translated(h, m.key))
    && match m.value
       case Object(_) => false
       case Array(items) => forall i :: 0 <= i < |items| ==> Buildable(h, items[i])
       case Str(_) => true
       case Bare(chars) => BareText(Translated(h, chars))
  }

  /** A whole document: an object, or an array of elements. */
  predicate Complete(h: Host, t: Tree)
    requires |h.etoa| == 256
  {
    match t
    case Object(_) => Buildable(h, t)
    case Array(items) => forall i :: 0 <= i < |items| ==> Buildable(h, items[i])
    case _ => false
  }

  /** The calls that build it, one after the other. */
  function Built(h: Host, s: State, t: Tree): State
    requires |h.etoa| == 256
    decreases t, 0
  {
    match t
    case Object(ms) => ObjectEnded(h, BuiltMembers(h, ObjectStarted(h, s), ms))
    case Array(items) => ArrayEnded(h, BuiltItems(h, ArrayStarted(h, s), items))
    case Str(v) => ElementAdded(h, s, Some(v))
    case Bare(_) => ElementAdded(h, s, None)
  }

  function BuiltItems(h: Host, s: State, items: seq<Tree>): State
    requires |h.etoa| == 256
    decreases items, 1
  {
    if items == [] then s else BuiltItems(h, Built(h, s, items[0]), items[1..])
  }

  function BuiltMembers(h: Host, s: State, ms: seq<Member>): State
    requires |h.etoa| == 256
    decreases ms, 1
  {
    if ms == [] then s else BuiltMembers(h, BuiltMember(h, s, ms[0]), ms[1..])
  }

  function BuiltMember(h: Host, s: State, m: Member): State
    requires |h.etoa| == 256
    decreases m, 0
  {
    match m.value
    case Object(_) => s
    case Array(items) => ArrayEnded(h, BuiltItems(h, ArrayKeyStarted(h, s, m.key), items))
    case Str(v) => ValueAdded(h, s, m.key, Some(v))
    case Bare(chars) => BareAdded(h, s, m.key, chars)
  }

  /** The tree as the client is to see it. */
  function Seen(h: Host, t: Tree): Tree
    requires |h.etoa| == 256
    decreases t, 0
  {
    match t
    case Object(ms) => Object(SeenMembers(h, ms))
    case Array(items) => Array(SeenItems(h, items))
    case Str(v) => Str(Translated(h, v))
    case Bare(chars) => Bare(Translated(h, chars))
  }

  function SeenItems(h: Host, items: seq<Tree>): (r: seq<Tree>)
    requires |h.etoa| == 256
    decreases items, 1
  {
    if items == [] then [] else [Seen(h, items[0])] + SeenItems(h, items[1..])
  }

  function SeenMembers(h: Host, ms: seq<Member>): (r: seq<Member>)
    requires |h.etoa| == 256
    decreases ms, 1
  {
    if ms == [] then [] else
    [Member(Translated(h, ms[0].key), Seen(h, ms[0].value))] + SeenMembers(h, ms[1..])
  }

  // --- what the client reads -------------------------------------------------------------

  function At(t: Text, p: nat): int { if p < |t| then t[p] else -1 }

  function HexOf(b: int): (v: int)
    ensures -1 <= v < 16
  {
    if 48 <= b <= 57 then b - 48 else if 65 <= b <= 70 then b - 55 else if 97 <= b <= 102 then b - 87 else -1
  }

  /** The code unit written as \uXXXX, from its first digit on. */
  function UnitAt(t: Text, p: nat): (v: Option<int>)
  {
    var a, b, c, d := HexOf(At(t, p)), HexOf(At(t, p + 1)), HexOf(At(t, p + 2)), HexOf(At(t, p + 3));
    if a < 0 || b < 0 || c < 0 || d < 0 then None else Some(((a * 16 + b) * 16 + c) * 16 + d)
  }

  /** The character of a short escape. */
  function Short(c: int): (v: Option<int>)
  {
    match c
    case 0x22 => Some(0x22)
    case 0x5C => Some(0x5C)
    case 0x2F => Some(0x2F)
    case 0x62 => Some(0x08)
    case 0x66 => Some(0x0C)
    case 0x6E => Some(0x0A)
    case 0x72 => Some(0x0D)
    case 0x74 => Some(0x09)
    case _ => None
  }

  /** One character of a string, and where it ends. The pages are single-byte: no unit above 255. */
  datatype Char = Char(value: Byte, next: nat)

  function CharFrom(t: Text, p: nat): (r: Option<Char>)
    requires p < |t|
    ensures r.Some? ==> p < r.value.next <= |t|
  {
    if t[p] == BACKSLASH then
      if At(t, p + 1) == 0x75 then
        var u := UnitAt(t, p + 2);
        if u.None? || u.value > 255 then None else Some(Char(u.value, p + 6))
      else
        var c := Short(At(t, p + 1));
        if c.None? then None else Some(Char(c.value, p + 2))
    else if t[p] < 0x20 then None
    else Some(Char(t[p], p + 1))
  }

  datatype Chars = Chars(bytes: Text, next: nat)

  /** The inside of a string, to behind the closing quote. */
  function StringFrom(t: Text, p: nat): (r: Option<Chars>)
    requires p <= |t|
    ensures r.Some? ==> p < r.value.next <= |t|
    decreases |t| - p
  {
    if p == |t| then None
    else if t[p] == QUOTE then Some(Chars([], p + 1))
    else
      var c := CharFrom(t, p);
      if c.None? then None else
      var rest := StringFrom(t, c.value.next);
      if rest.None? then None else Some(Chars([c.value.value] + rest.value.bytes, rest.value.next))
  }

  function BareEnd(t: Text, p: nat): (q: nat)
    requires p <= |t|
    ensures p <= q <= |t|
    decreases |t| - p
  {
    if p < |t| && BareByte(t[p]) then BareEnd(t, p + 1) else p
  }

  datatype Parsed = Parsed(tree: Tree, next: nat)

  datatype Items = Items(items: seq<Tree>, next: nat)

  datatype Members = Members(members: seq<Member>, next: nat)

  /** A reader of section 2 of RFC 8259 for texts without blanks. */
  function ValueFrom(t: Text, p: nat): (r: Option<Parsed>)
    requires p <= |t|
    ensures r.Some? ==> p < r.value.next <= |t|
    decreases |t| - p, 0
  {
    if At(t, p) == QUOTE then
      var s := StringFrom(t, p + 1);
      if s.None? then None else Some(Parsed(Str(s.value.bytes), s.value.next))
    else if At(t, p) == OPEN_OBJECT then
      if At(t, p + 1) == CLOSE_OBJECT then Some(Parsed(Object([]), p + 2)) else
      var ms := MembersFrom(t, p + 1);
      if ms.None? then None else Some(Parsed(Object(ms.value.members), ms.value.next))
    else if At(t, p) == OPEN_ARRAY then
      if At(t, p + 1) == CLOSE_ARRAY then Some(Parsed(Array([]), p + 2)) else
      var items := ItemsFrom(t, p + 1);
      if items.None? then None else Some(Parsed(Array(items.value.items), items.value.next))
    else
      var e := BareEnd(t, p);
      if e == p || !BareText(t[p..e]) then None else Some(Parsed(Bare(t[p..e]), e))
  }

  function ItemsFrom(t: Text, p: nat): (r: Option<Items>)
    requires p <= |t|
    ensures r.Some? ==> p < r.value.next <= |t|
    decreases |t| - p, 1
  {
    var v := ValueFrom(t, p);
    if v.None? then None
    else if At(t, v.value.next) == CLOSE_ARRAY then Some(Items([v.value.tree], v.value.next + 1))
    else if At(t, v.value.next) == COMMA then
      var rest := ItemsFrom(t, v.value.next + 1);
      if rest.None? then None else Some(Items([v.value.tree] + rest.value.items, rest.value.next))
    else None
  }

  function MemberFrom(t: Text, p: nat): (r: Option<Parsed>)
    requires p <= |t|
    ensures r.Some? ==> p < r.value.next <= |t| && r.value.tree.Object? && |r.value.tree.members| == 1
    decreases |t| - p, 1
  {
    if At(t, p) != QUOTE then None else
    var key := StringFrom(t, p + 1);
    if key.None? || At(t, key.value.next) != COLON then None else
    var v := ValueFrom(t, key.value.next + 1);
    if v.None? then None else Some(Parsed(Object([Member(key.value.bytes, v.value.tree)]), v.value.next))
  }

  function MembersFrom(t: Text, p: nat): (r: Option<Members>)
    requires p <= |t|
    ensures r.Some? ==> p < r.value.next <= |t|
    decreases |t| - p, 2
  {
    var m := MemberFrom(t, p);
    if m.None? then None
    else if At(t, m.value.next) == CLOSE_OBJECT then Some(Members(m.value.tree.members, m.value.next + 1))
    else if At(t, m.value.next) == COMMA then
      var rest := MembersFrom(t, m.value.next + 1);
      if rest.None? then None else Some(Members(m.value.tree.members + rest.value.members, rest.value.next))
    else None
  }

  /** The tree a text is. */
  function Read(t: Text): Option<Tree>
  {
    var v := ValueFrom(t, 0);
    if v.None? || v.value.next != |t| then None else Some(v.value.tree)
  }

  // --- the text of a tree ----------------------------------------------------------------

  function InQuotes(v: Text, rest: Text): Text { [QUOTE] + EscapedAll(v, false, [QUOTE] + rest) }

  function KeyText(key: Text, rest: Text): Text { [QUOTE] + (key + ([QUOTE] + ([COLON] + rest))) }

  function Print(t: Tree, rest: Text): Text
    decreases t, 0
  {
    match t
    case Object(ms) => [OPEN_OBJECT] + PrintMembers(ms, true, [CLOSE_OBJECT] + rest)
    case Array(items) => [OPEN_ARRAY] + PrintItems(items, true, [CLOSE_ARRAY] + rest)
    case Str(v) => InQuotes(v, rest)
    case Bare(chars) => chars + rest
  }

  /** A comma in front of all but the first. */
  function Parted(first: bool, s: Text): Text { if first then s else [COMMA] + s }

  function PrintItems(items: seq<Tree>, first: bool, rest: Text): Text
    decreases items, 1
  {
    if items == [] then rest else Parted(first, Print(items[0], PrintItems(items[1..], false, rest)))
  }

  function PrintMembers(ms: seq<Member>, first: bool, rest: Text): Text
    decreases ms, 1
  {
    if ms == [] then rest else
    Parted(first, KeyText(ms[0].key, Print(ms[0].value, PrintMembers(ms[1..], false, rest))))
  }

  // --- the calls print the tree ----------------------------------------------------------

  lemma PieceGrows(h: Host, text: Text, piece: Text, x: Text)
    requires |h.etoa| == 256
    ensures Translated(h, text + piece) + x == Translated(h, text) + (Translated(h, piece) + x)
  {
    TranslatedSum(h, text, piece);
    Reassociate(Translated(h, text), Translated(h, piece), x);
  }

  lemma LitGrows(h: Host, text: Text, s: string, x: Text)
    requires Faithful(h) && AllPrintable(s)
    ensures Translated(h, text + Lit(h, s)) + x == Translated(h, text) + (Ascii(s) + x)
  {
    hide Faithful, Lit, Translated, Ascii;
    TranslatedLiteral(h, s);
    assert |h.etoa| == 256 by { TableSize(h); }
    PieceGrows(h, text, Lit(h, s), x);
  }

  lemma TableSize(h: Host)
    requires Faithful(h)
    ensures |h.etoa| == 256
  {
  }

  lemma OneGrows(h: Host, text: Text, c: char, b: Byte, x: Text)
    requires Faithful(h) && Printable(c) && b == c as int
    ensures Translated(h, text + Lit(h, [c])) + x == Translated(h, text) + ([b] + x)
  {
    assert Ascii([c]) == [b];
    LitGrows(h, text, [c], x);
  }

  lemma CommaGrows(h: Host, s: State, x: Text)
    requires Faithful(h)
    ensures Translated(h, Comma(h, s)) + x == Translated(h, s.text) + Parted(s.first, x)
  {
    if !s.first {
      OneGrows(h, s.text, ',', COMMA, x);
    }
  }

  lemma {:induction false} EscapedSnoc(v: Text, a: Byte, nonAscii: bool, x: Text)
    ensures EscapedAll(v + [a], nonAscii, x) == EscapedAll(v, nonAscii, Escaped(a, nonAscii) + x)
  {
    if v == [] {
      assert v + [a] == [a] && [a][1..] == [];
      assert EscapedAll([], nonAscii, x) == x;
    } else {
      assert (v + [a])[0] == v[0] && (v + [a])[1..] == v[1..] + [a];
      EscapedSnoc(v[1..], a, nonAscii, x);
    }
  }

  lemma EscapeCharSeen(h: Host, b: Byte, nonAscii: bool)
    requires Faithful(h)
    ensures Translated(h, EscapeChar(h, b, nonAscii)) == Escaped(h.etoa[b], nonAscii)
  {
    TranslatedLiteral(h, Escape(h.etoa[b], nonAscii));
  }

  lemma {:induction false} EscapeGrows(h: Host, text: Text, v: Text, nonAscii: bool, x: Text)
    requires Faithful(h)
    ensures Translated(h, text + EscapeAll(h, v, nonAscii)) + x
         == Translated(h, text) + EscapedAll(Translated(h, v), nonAscii, x)
    decreases |v|
  {
    hide Faithful, EscapeChar, Escaped;
    TableSize(h);
    if v == [] {
      assert text + [] == text;
      assert EscapedAll([], nonAscii, x) == x;
      assert Translated(h, v) == [];
    } else {
      var front, b := v[..|v| - 1], v[|v| - 1];
      var most := text + EscapeAll(h, front, nonAscii);
      Reassociate(text, EscapeAll(h, front, nonAscii), EscapeChar(h, b, nonAscii));
      EscapeCharSeen(h, b, nonAscii);
      PieceGrows(h, most, EscapeChar(h, b, nonAscii), x);
      EscapeGrows(h, text, front, nonAscii, Escaped(h.etoa[b], nonAscii) + x);
      assert Translated(h, v) == Translated(h, front) + [h.etoa[b]];
      EscapedSnoc(Translated(h, front), h.etoa[b], nonAscii, x);
    }
  }

  lemma QuotedGrows(h: Host, text: Text, v: Text, x: Text)
    requires Faithful(h)
    ensures |h.etoa| == 256 && Translated(h, Quoted(h, text, v)) + x
            == Translated(h, text) + InQuotes(Translated(h, v), x)
  {
    hide Faithful, Lit, Translated, EscapeAll, EscapedAll;
    TableSize(h);
    var quote := text + Lit(h, "\"");
    OneGrows(h, quote + EscapeAll(h, v, false), '"', QUOTE, x);
    EscapeGrows(h, quote, v, false, [QUOTE] + x);
    OneGrows(h, text, '"', QUOTE, EscapedAll(Translated(h, v), false, [QUOTE] + x));
  }

  lemma KeyGrows(h: Host, text: Text, key: Text, x: Text)
    requires Faithful(h)
    ensures |h.etoa| == 256
    ensures Translated(h, text + Lit(h, "\"") + key + Lit(h, "\":")) + x
            == Translated(h, text) + KeyText(Translated(h, key), x)
  {
    hide Faithful, Lit, Translated;
    TableSize(h);
    var quote := text + Lit(h, "\"");
    LitGrows(h, quote + key, "\":", x);
    assert Ascii("\":") + x == [QUOTE] + ([COLON] + x);
    PieceGrows(h, quote, key, [QUOTE] + ([COLON] + x));
    OneGrows(h, text, '"', QUOTE, Translated(h, key) + ([QUOTE] + ([COLON] + x)));
  }

  lemma KeyedGrows(h: Host, s: State, key: Text, x: Text)
    requires Faithful(h)
    ensures |h.etoa| == 256
    ensures Translated(h, Keyed(h, s, key)) + x
            == Translated(h, s.text) + Parted(s.first, KeyText(Translated(h, key), x))
  {
    hide Faithful, Lit, Translated, Comma;
    TableSize(h);
    KeyGrows(h, Comma(h, s), key, x);
    CommaGrows(h, s, KeyText(Translated(h, key), x));
  }

  lemma ArrayKeyGrows(h: Host, s: State, key: Text, x: Text)
    requires Faithful(h)
    ensures |h.etoa| == 256
    ensures Translated(h, ArrayKeyStarted(h, s, key).text) + x
         == Translated(h, s.text) + Parted(s.first, KeyText(Translated(h, key), [OPEN_ARRAY] + x))
  {
    TableSize(h);
    var front := Comma(h, s) + Lit(h, "\"") + key;
    assert Lit(h, "\":[") == Lit(h, "\":") + Lit(h, "[");
    Reassociate(front, Lit(h, "\":"), Lit(h, "["));
    hide Faithful, Lit, Translated, Comma;
    OneGrows(h, Keyed(h, s, key), '[', OPEN_ARRAY, x);
    KeyedGrows(h, s, key, [OPEN_ARRAY] + x);
  }

  lemma {:induction false} ElementPrints(h: Host, s: State, t: Tree, rest: Text)
    requires Faithful(h) && |h.etoa| == 256 && Buildable(h, t)
    ensures Translated(h, Built(h, s, t).text) + rest
            == Translated(h, s.text) + Parted(s.first, Print(Seen(h, t), rest))
    ensures !Built(h, s, t).first
    decreases t, 0
  {
    hide Faithful, Lit, Translated, Comma, Quoted, Parted, MemberOk;
    match t {
      case Object(ms) =>
        var started := ObjectStarted(h, s);
        var members := BuiltMembers(h, started, ms);
        OneGrows(h, members.text, '}', CLOSE_OBJECT, rest);
        MembersPrint(h, started, ms, [CLOSE_OBJECT] + rest);
        var inside := PrintMembers(SeenMembers(h, ms), true, [CLOSE_OBJECT] + rest);
        OneGrows(h, Comma(h, s), '{', OPEN_OBJECT, inside);
        CommaGrows(h, s, [OPEN_OBJECT] + inside);
      case Str(v) =>
        QuotedGrows(h, Comma(h, s), v, rest);
        CommaGrows(h, s, InQuotes(Translated(h, v), rest));
      case Bare(chars) =>
        PieceGrows(h, Comma(h, s), Lit(h, "null"), rest);
        CommaGrows(h, s, Translated(h, chars) + rest);
    }
  }

  lemma {:induction false} ItemsPrint(h: Host, s: State, items: seq<Tree>, rest: Text)
    requires Faithful(h) && |h.etoa| == 256 && forall i :: 0 <= i < |items| ==> Buildable(h, items[i])
    ensures Translated(h, BuiltItems(h, s, items).text) + rest
         == Translated(h, s.text) + PrintItems(SeenItems(h, items), s.first, rest)
    decreases items, 1
  {
    hide Faithful, Translated, Parted, Buildable, Built, Print;
    if items != [] {
      var next := Built(h, s, items[0]);
      ItemsPrint(h, next, items[1..], rest);
      var more := PrintItems(SeenItems(h, items[1..]), false, rest);
      ElementPrints(h, s, items[0], more);
      assert SeenItems(h, items)[1..] == SeenItems(h, items[1..]);
    }
  }

  lemma {:induction false} MembersPrint(h: Host, s: State, ms: seq<Member>, rest: Text)
    requires Faithful(h) && |h.etoa| == 256 && forall i :: 0 <= i < |ms| ==> MemberOk(h, ms[i])
    ensures Translated(h, BuiltMembers(h, s, ms).text) + rest
         == Translated(h, s.text) + PrintMembers(SeenMembers(h, ms), s.first, rest)
    decreases ms, 1
  {
    hide Faithful, Translated, Parted, MemberOk, BuiltMember, Print, KeyText;
    if ms != [] {
      var next := BuiltMember(h, s, ms[0]);
      MembersPrint(h, next, ms[1..], rest);
      var more := PrintMembers(SeenMembers(h, ms[1..]), false, rest);
      MemberPrints(h, s, ms[0], more);
      assert SeenMembers(h, ms)[1..] == SeenMembers(h, ms[1..]);
    }
  }

  lemma {:induction false} MemberPrints(h: Host, s: State, m: Member, rest: Text)
    requires Faithful(h) && |h.etoa| == 256 && MemberOk(h, m)
    ensures Translated(h, BuiltMember(h, s, m).text) + rest
         == Translated(h, s.text) + Parted(s.first, KeyText(Translated(h, m.key), Print(Seen(h, m.value), rest)))
    ensures !BuiltMember(h, s, m).first
    decreases m, 0
  {
    hide Faithful, Translated, Parted, Lit, Buildable, PlainKey, BareText, Keyed, Quoted, KeyText, ArrayKeyStarted;
    match m.value {
      case Str(v) =>
        QuotedGrows(h, Keyed(h, s, m.key), v, rest);
        KeyedGrows(h, s, m.key, InQuotes(Translated(h, v), rest));
      case Bare(chars) =>
        PieceGrows(h, Keyed(h, s, m.key), chars, rest);
        KeyedGrows(h, s, m.key, Translated(h, chars) + rest);
      case Array(items) =>
        var started := ArrayKeyStarted(h, s, m.key);
        OneGrows(h, BuiltItems(h, started, items).text, ']', CLOSE_ARRAY, rest);
        ItemsPrint(h, started, items, [CLOSE_ARRAY] + rest);
        ArrayKeyFirst(h, s, m.key);
        ArrayKeyGrows(h, s, m.key, PrintItems(SeenItems(h, items), true, [CLOSE_ARRAY] + rest));
    }
  }

  lemma ArrayKeyFirst(h: Host, s: State, key: Text)
    ensures ArrayKeyStarted(h, s, key).first
  {
  }

  /** One flag does the work of a stack: the calls leave exactly the text of the tree. */
  lemma PrintsTree(h: Host, t: Tree)
    requires Faithful(h) && |h.etoa| == 256 && Complete(h, t)
    ensures Translated(h, Built(h, State([], true), t).text) == Print(Seen(h, t), [])
  {
    hide Faithful, Lit, Translated, Buildable, Comma;
    var s := State([], true);
    assert Translated(h, []) == [] by { EmptySeen(h); }
    var text := Translated(h, Built(h, s, t).text);
    assert text + [] == text;
    match t {
      case Object(_) =>
        ElementPrints(h, s, t, []);
        assert [] + Print(Seen(h, t), []) == Print(Seen(h, t), []);
      case Array(items) =>
        var started := ArrayStarted(h, s);
        OneGrows(h, BuiltItems(h, started, items).text, ']', CLOSE_ARRAY, []);
        ItemsPrint(h, started, items, [CLOSE_ARRAY] + []);
        var inside := PrintItems(SeenItems(h, items), true, [CLOSE_ARRAY] + []);
        OneGrows(h, [], '[', OPEN_ARRAY, inside);
        assert [] + ([OPEN_ARRAY] + inside) == [OPEN_ARRAY] + inside;
    }
  }

  lemma EmptySeen(h: Host)
    requires |h.etoa| == 256
    ensures Translated(h, []) == []
  {
  }

  // --- the client reads it back ----------------------------------------------------------

  /** What can stand behind a bare value. */
  predicate Stop(rest: Text) { rest == [] || !BareByte(rest[0]) }

  predicate Readable(t: Tree)
    decreases t, 0
  {
    match t
    case Object(ms) => forall i :: 0 <= i < |ms| ==> ReadableMember(ms[i])
    case Array(items) => forall i :: 0 <= i < |items| ==> Readable(items[i])
    case Str(_) => true
    case Bare(chars) => BareText(chars)
  }

  predicate ReadableMember(m: Member)
    decreases m, 0
  {
    PlainKey(m.key) && Readable(m.value)
  }

  lemma HexReads(d: nat)
    requires d < 16
    ensures HexOf(HexChar(d) as int) == d
  {
  }

  /** The bytes of an escape. */
  lemma EscapedBytes(a: Byte, nonAscii: bool)
    ensures var e := Escaped(a, nonAscii);
            && (Raw(a, nonAscii) ==> e == [a] && a != QUOTE && a != BACKSLASH && a >= 0x20)
            && (!Raw(a, nonAscii) ==> |e| > 1 && e[0] == BACKSLASH)
            && (!Raw(a, nonAscii) && e[1] != 0x75 ==> |e| == 2 && Short(e[1]) == Some(a))
            && (!Raw(a, nonAscii) && e[1] == 0x75 ==>
                  |e| == 6 && e[2] == 48 && e[3] == 48 && HexOf(e[4]) == a / 16 && HexOf(e[5]) == a % 16)
  {
    HexReads(a / 16);
    HexReads(a % 16);
    hide HexOf, HexChar;
  }

  /** One character: whatever its escape, it is read as itself. */
  lemma CharReads(t: Text, a: Byte, nonAscii: bool, rest: Text)
    requires Left(t, Escaped(a, nonAscii) + rest)
    ensures Left(t, rest)
    ensures var p := Pos(t, Escaped(a, nonAscii) + rest);
            p < |t| && t[p] != QUOTE && CharFrom(t, p) == Some(Char(a, Pos(t, rest)))
  {
    hide Left, Pos, Escaped, HexOf, Short, Raw;
    var e := Escaped(a, nonAscii);
    var p := Pos(t, e + rest);
    PastEach(t, e, rest);
    EscapedBytes(a, nonAscii);
    assert e[0] == t[p];
    if !Raw(a, nonAscii) {
      assert e[1] == t[p + 1];
      if e[1] == 0x75 {
        ZeroReads();
        assert e[2] == t[p + 2] && e[3] == t[p + 3] && e[4] == t[p + 4] && e[5] == t[p + 5];
      }
    }
  }

  lemma ZeroReads()
    ensures HexOf(48) == 0
  {
  }

  lemma {:induction false} StringReads(t: Text, v: Text, nonAscii: bool, rest: Text)
    requires Left(t, EscapedAll(v, nonAscii, [QUOTE] + rest))
    ensures Left(t, rest)
    ensures StringFrom(t, Pos(t, EscapedAll(v, nonAscii, [QUOTE] + rest))) == Some(Chars(v, Pos(t, rest)))
    decreases |v|
  {
    hide Left, Pos, Escaped, CharFrom;
    if v == [] {
      PastOne(t, QUOTE, rest);
    } else {
      CharReads(t, v[0], nonAscii, EscapedAll(v[1..], nonAscii, [QUOTE] + rest));
      StringReads(t, v[1..], nonAscii, rest);
      assert [v[0]] + v[1..] == v;
    }
  }

  /** A plain key needs no escapes. */
  lemma {:induction false} PlainEscaped(k: Text, x: Text)
    requires PlainKey(k)
    ensures EscapedAll(k, false, x) == k + x
    decreases |k|
  {
    if k == [] {
      assert k + x == x;
    } else {
      PlainEscaped(k[1..], x);
      assert k + x == [k[0]] + (k[1..] + x);
    }
  }

  lemma KeyReads(t: Text, key: Text, rest: Text)
    requires PlainKey(key) && Left(t, KeyText(key, rest))
    ensures Left(t, rest)
    ensures var p := Pos(t, KeyText(key, rest));
            && At(t, p) == QUOTE && p < |t|
            && StringFrom(t, p + 1) == Some(Chars(key, Pos(t, rest) - 1)) && At(t, Pos(t, rest) - 1) == COLON
  {
    hide Left, Pos, PlainKey, StringFrom, EscapedAll;
    var behind := [COLON] + rest;
    PastOne(t, QUOTE, key + ([QUOTE] + behind));
    PlainEscaped(key, [QUOTE] + behind);
    StringReads(t, key, false, behind);
    PastOne(t, COLON, rest);
  }

  lemma {:induction false} BareEndAt(t: Text, p: nat, q: nat)
    requires p <= q <= |t| && (forall i :: p <= i < q ==> BareByte(t[i])) && (q < |t| ==> !BareByte(t[q]))
    ensures BareEnd(t, p) == q
    decreases q - p
  {
    if p < q {
      BareEndAt(t, p + 1, q);
    }
  }

  lemma BareReads(t: Text, chars: Text, rest: Text)
    requires BareText(chars) && Stop(rest) && Left(t, chars + rest)
    ensures Left(t, rest)
    ensures ValueFrom(t, Pos(t, chars + rest)) == Some(Parsed(Bare(chars), Pos(t, rest)))
  {
    var p := Pos(t, chars + rest);
    Past(t, chars, rest);
    PastEach(t, chars, rest);
    var q := Pos(t, rest);
    assert q < |t| ==> t[q] == rest[0];
    BareBytes(chars);
    hide BareText, Left, Pos;
    BareEndAt(t, p, q);
    assert t[p] == chars[0];
  }

  /** The first byte of an element, which no closing bracket is. */
  lemma PrintHead(t: Text, v: Tree, rest: Text)
    requires Readable(v) && Left(t, Print(v, rest))
    ensures At(t, Pos(t, Print(v, rest))) != CLOSE_ARRAY && Pos(t, Print(v, rest)) < |t|
  {
    if v.Bare? {
      BareBytes(v.chars);
    }
    hide BareText;
    var p := Pos(t, Print(v, rest));
    assert Print(v, rest) != [] && t[p] == Print(v, rest)[0];
  }

  lemma StringValue(t: Text, v: Text, rest: Text)
    requires Left(t, InQuotes(v, rest))
    ensures Left(t, rest)
    ensures ValueFrom(t, Pos(t, InQuotes(v, rest))) == Some(Parsed(Str(v), Pos(t, rest)))
  {
    hide Left, Pos, StringFrom, EscapedAll;
    PastOne(t, QUOTE, EscapedAll(v, false, [QUOTE] + rest));
    StringReads(t, v, false, rest);
  }

  lemma {:induction false} ValueReads(t: Text, v: Tree, rest: Text)
    requires Readable(v) && Stop(rest) && Left(t, Print(v, rest))
    ensures Left(t, rest)
    ensures ValueFrom(t, Pos(t, Print(v, rest))) == Some(Parsed(v, Pos(t, rest)))
    decreases v, 0
  {
    hide Left, Pos, BareText, ItemsFrom, MembersFrom, InQuotes, StringFrom;
    match v {
      case Str(bytes) =>
        StringValue(t, bytes, rest);
      case Bare(chars) =>
        BareReads(t, chars, rest);
      case Array(items) =>
        var behind := [CLOSE_ARRAY] + rest;
        PastOne(t, OPEN_ARRAY, PrintItems(items, true, behind));
        if items == [] {
          PastOne(t, CLOSE_ARRAY, rest);
        } else {
          PrintHead(t, items[0], PrintItems(items[1..], false, behind));
          ItemsRead(t, items, rest);
        }
      case Object(ms) =>
        var behind := [CLOSE_OBJECT] + rest;
        PastOne(t, OPEN_OBJECT, PrintMembers(ms, true, behind));
        if ms == [] {
          PastOne(t, CLOSE_OBJECT, rest);
        } else {
          assert ReadableMember(ms[0]);
          KeyReads(t, ms[0].key, Print(ms[0].value, PrintMembers(ms[1..], false, behind)));
          MembersRead(t, ms, rest);
        }
    }
  }

  lemma {:induction false} ItemsRead(t: Text, items: seq<Tree>, rest: Text)
    requires items != [] && forall i :: 0 <= i < |items| ==> Readable(items[i])
    requires Left(t, PrintItems(items, true, [CLOSE_ARRAY] + rest))
    ensures Left(t, rest)
    ensures ItemsFrom(t, Pos(t, PrintItems(items, true, [CLOSE_ARRAY] + rest))) == Some(Items(items, Pos(t, rest)))
    decreases items, 1
  {
    hide Left, Pos, Readable, ValueFrom, Print;
    var behind := [CLOSE_ARRAY] + rest;
    ValueReads(t, items[0], PrintItems(items[1..], false, behind));
    if |items| == 1 {
      PastOne(t, CLOSE_ARRAY, rest);
      assert items == [items[0]];
    } else {
      PastOne(t, COMMA, PrintItems(items[1..], true, behind));
      ItemsRead(t, items[1..], rest);
      assert items == [items[0]] + items[1..];
    }
  }

  lemma {:induction false} MembersRead(t: Text, ms: seq<Member>, rest: Text)
    requires ms != [] && forall i :: 0 <= i < |ms| ==> ReadableMember(ms[i])
    requires Left(t, PrintMembers(ms, true, [CLOSE_OBJECT] + rest))
    ensures Left(t, rest)
    ensures MembersFrom(t, Pos(t, PrintMembers(ms, true, [CLOSE_OBJECT] + rest))) == Some(Members(ms, Pos(t, rest)))
    decreases ms, 1
  {
    hide Left, Pos, ReadableMember, ValueFrom, MemberFrom, Print, KeyText;
    FirstMember(t, ms, PrintMembers(ms[1..], false, [CLOSE_OBJECT] + rest));
    if |ms| == 1 {
      PastOne(t, CLOSE_OBJECT, rest);
      assert ms == [ms[0]];
    } else {
      PastOne(t, COMMA, PrintMembers(ms[1..], true, [CLOSE_OBJECT] + rest));
      MembersRead(t, ms[1..], rest);
      assert ms == [ms[0]] + ms[1..];
    }
  }

  lemma {:induction false} FirstMember(t: Text, ms: seq<Member>, rest: Text)
    requires ms != [] && ReadableMember(ms[0]) && Stop(rest)
    requires Left(t, KeyText(ms[0].key, Print(ms[0].value, rest)))
    ensures Left(t, rest)
    ensures MemberFrom(t, Pos(t, KeyText(ms[0].key, Print(ms[0].value, rest))))
            == Some(Parsed(Object([ms[0]]), Pos(t, rest)))
    decreases ms, 0
  {
    hide Left, Pos, Readable, PlainKey, ValueFrom, StringFrom, Print, KeyText;
    var m := ms[0];
    KeyReads(t, m.key, Print(m.value, rest));
    ValueReads(t, m.value, rest);
  }

  // --- the round trip --------------------------------------------------------------------

  lemma {:induction false} ElementReadable(h: Host, t: Tree)
    requires Faithful(h) && |h.etoa| == 256 && Buildable(h, t)
    ensures Readable(Seen(h, t))
    decreases t, 0
  {
    match t {
      case Object(ms) => MembersReadable(h, ms);
      case Str(_) =>
      case Bare(_) =>
        TranslatedLiteral(h, "null");
    }
  }

  lemma {:induction false} ItemsReadable(h: Host, items: seq<Tree>)
    requires Faithful(h) && |h.etoa| == 256 && forall i :: 0 <= i < |items| ==> Buildable(h, items[i])
    ensures forall i :: 0 <= i < |SeenItems(h, items)| ==> Readable(SeenItems(h, items)[i])
    decreases items, 1
  {
    hide Faithful, Buildable, Readable;
    if items != [] {
      ElementReadable(h, items[0]);
      ItemsReadable(h, items[1..]);
    }
  }

  lemma {:induction false} MembersReadable(h: Host, ms: seq<Member>)
    requires Faithful(h) && |h.etoa| == 256 && forall i :: 0 <= i < |ms| ==> MemberOk(h, ms[i])
    ensures forall i :: 0 <= i < |SeenMembers(h, ms)| ==> ReadableMember(SeenMembers(h, ms)[i])
    decreases ms, 1
  {
    hide Faithful, MemberOk, ReadableMember, Seen, Translated;
    if ms != [] {
      MemberReadable(h, ms[0]);
      MembersReadable(h, ms[1..]);
    }
  }

  lemma {:induction false} MemberReadable(h: Host, m: Member)
    requires Faithful(h) && |h.etoa| == 256 && MemberOk(h, m)
    ensures ReadableMember(Member(Translated(h, m.key), Seen(h, m.value)))
    decreases m, 0
  {
    hide Faithful, Buildable, BareText, Translated;
    match m.value {
      case Array(items) => ItemsReadable(h, items);
      case Str(_) =>
      case Bare(_) =>
    }
  }

  /** What the client reads, translated and unescaped, is the document that was built. */
  lemma ReadsBack(h: Host, t: Tree)
    requires Faithful(h) && |h.etoa| == 256 && Complete(h, t)
    ensures Read(Translated(h, Built(h, State([], true), t).text)) == Some(Seen(h, t))
  {
    hide Faithful, Buildable, Built, Seen, Print, ValueFrom, Translated;
    PrintsTree(h, t);
    CompleteReadable(h, t);
    var text := Print(Seen(h, t), []);
    AllLeft(text);
    ValueReads(text, Seen(h, t), []);
  }

  lemma CompleteReadable(h: Host, t: Tree)
    requires Faithful(h) && |h.etoa| == 256 && Complete(h, t)
    ensures Readable(Seen(h, t))
  {
    match t {
      case Object(_) => ElementReadable(h, t);
      case Array(items) => ItemsReadable(h, items);
    }
  }

  /** A value, escaped, translated and read as a string, is the value translated. */
  lemma UnescapeUndoes(h: Host, v: Text, nonAscii: bool)
    requires Faithful(h) && |h.etoa| == 256
    ensures StringFrom(Translated(h, EscapeAll(h, v, nonAscii)) + [QUOTE], 0)
         == Some(Chars(Translated(h, v), |EscapeAll(h, v, nonAscii)| + 1))
  {
    hide Faithful, EscapeAll, EscapedAll, Translated, StringFrom;
    var text := Translated(h, EscapeAll(h, v, nonAscii)) + [QUOTE];
    EscapeGrows(h, [], v, nonAscii, [QUOTE]);
    EmptySeen(h);
    assert [] + EscapeAll(h, v, nonAscii) == EscapeAll(h, v, nonAscii);
    assert [] + EscapedAll(Translated(h, v), nonAscii, [QUOTE]) == EscapedAll(Translated(h, v), nonAscii, [QUOTE]);
    assert [QUOTE] + [] == [QUOTE];
    AllLeft(text);
    StringReads(text, Translated(h, v), nonAscii, []);
  }

  /**
   * A name escaped into a buffer of any size, as both listings of members escape
   * theirs: what the client reads is the translation of the bytes taken.
   */
  method EscapeReadsBack(h: Host, out: array<Byte>, raw: Text, nonAscii: bool) returns (o: nat, ghost taken: nat)
    requires Faithful(h) && |h.etoa| == 256 && out.Length > 0
    modifies out
    ensures o < out.Length && taken <= |raw| && (taken == |raw| || o + 6 >= out.Length)
    ensures StringFrom(Translated(h, out[..o]) + [QUOTE], 0) == Some(Chars(Translated(h, raw[..taken]), o + 1))
  {
    hide Faithful, EscapeAll, Translated, StringFrom;
    o, taken := EscapeBytes(h, out, raw, nonAscii);
    UnescapeUndoes(h, raw[..taken], nonAscii);
  }
}
