// Printing a JSON document by calls: src/json.c. The builder works in the host
// character set; the client sees the text translated with etoa. On a host that is
// ASCII already the table is the identity.
module Json {
  import opened Bytes
  import opened Wrappers

  type Text = seq<Byte>

  const INITIAL := 1024
  const GROWTH := 2
  const TEMP_MAX := 255
  const ESC_MAX := 6

  const QUOTE: Byte := 34
  const COMMA: Byte := 44
  const COLON: Byte := 58
  const OPEN_ARRAY: Byte := 91
  const BACKSLASH: Byte := 92
  const CLOSE_ARRAY: Byte := 93
  const OPEN_OBJECT: Byte := 123
  const CLOSE_OBJECT: Byte := 125

  // --- the host's characters and the client's --------------------------------------------

  /** The table the response is translated with, and the codes of the program's literals. */
  datatype Host = Host(etoa: seq<Byte>, literal: char -> Byte)

  predicate Printable(c: char) { ' ' <= c <= '~' }

  /** The table is one, and gives every printable literal its ASCII code. */
  ghost predicate Faithful(h: Host)
  {
    && |h.etoa| == 256
    && forall c: char :: Printable(c) ==> h.literal(c) != 0 && h.etoa[h.literal(c)] == c as int
  }

  function Lit(h: Host, s: string): (t: Text)
    ensures |t| == |s|
  {
    seq<Byte>(|s|, i requires 0 <= i < |s| => h.literal(s[i]))
  }

  function Translated(h: Host, t: Text): (r: Text)
    requires |h.etoa| == 256
    ensures |r| == |t| && forall i :: 0 <= i < |t| ==> r[i] == h.etoa[t[i]]
  {
    seq<Byte>(|t|, i requires 0 <= i < |t| => h.etoa[t[i]])
  }

  predicate AllPrintable(s: string) { forall i :: 0 <= i < |s| ==> Printable(s[i]) }

  function Ascii(s: string): (r: Text)
    requires AllPrintable(s)
    ensures |r| == |s| && forall i :: 0 <= i < |s| ==> r[i] == s[i] as int
  {
    seq<Byte>(|s|, i requires 0 <= i < |s| => s[i] as int)
  }

  lemma TranslatedLiteral(h: Host, s: string)
    requires Faithful(h) && AllPrintable(s)
    ensures Translated(h, Lit(h, s)) == Ascii(s)
    ensures forall i :: 0 <= i < |s| ==> Lit(h, s)[i] != 0
  {
  }

  lemma TranslatedSum(h: Host, a: Text, b: Text)
    requires |h.etoa| == 256
    ensures Translated(h, a + b) == Translated(h, a) + Translated(h, b)
  {
  }

  // --- escapes ---------------------------------------------------------------------------

  function HexChar(d: nat): (c: char)
    requires d < 16
    ensures Printable(c)
  {
    "0123456789ABCDEF"[d]
  }

  /** What the client is to read for a: section 7 of RFC 8259. */
  function Escape(a: Byte, nonAscii: bool): (s: string)
    ensures AllPrintable(s) && |s| <= ESC_MAX && (s == [] <==> Raw(a, nonAscii))
  {
    match a
    case 0x22 => "\\\""
    case 0x5C => "\\\\"
    case 0x08 => "\\b"
    case 0x0C => "\\f"
    case 0x0D => "\\r"
    case 0x0A => "\\n"
    case 0x09 => "\\t"
    case _ => if Raw(a, nonAscii) then "" else "\\u00" + [HexChar(a / 16), HexChar(a % 16)]
  }

  /** The byte itself is written. */
  predicate Raw(a: Byte, nonAscii: bool)
  {
    a != QUOTE && a != BACKSLASH && a >= 0x20 && (a < 0x7F || (a > 0x9F && !nonAscii))
  }

  /** escape_char(): decided on the byte the client receives, written in the host's. */
  function EscapeChar(h: Host, b: Byte, nonAscii: bool): (t: Text)
    requires |h.etoa| == 256
    ensures 0 < |t| <= ESC_MAX
  {
    var a := h.etoa[b];
    if Raw(a, nonAscii) then [b] else Lit(h, Escape(a, nonAscii))
  }

  function EscapeAll(h: Host, v: Text, nonAscii: bool): Text
    requires |h.etoa| == 256
  {
    if v == [] then [] else EscapeAll(h, v[..|v| - 1], nonAscii) + EscapeChar(h, v[|v| - 1], nonAscii)
  }

  /** The same for the client, in front of rest. */
  function Escaped(a: Byte, nonAscii: bool): Text
  {
    if Raw(a, nonAscii) then [a] else Ascii(Escape(a, nonAscii))
  }

  function EscapedAll(v: Text, nonAscii: bool, rest: Text): Text
  {
    if v == [] then rest else Escaped(v[0], nonAscii) + EscapedAll(v[1..], nonAscii, rest)
  }

  /** jsonEscapeBytes(): as many whole escapes as there is room for. */
  method EscapeBytes(h: Host, out: array<Byte>, raw: Text, nonAscii: bool) returns (o: nat, ghost taken: nat)
    requires |h.etoa| == 256
    modifies out
    ensures taken <= |raw|
    ensures out.Length == 0 ==> o == 0
    ensures out.Length > 0 ==>
              && o < out.Length && out[o] == 0 && out[..o] == EscapeAll(h, raw[..taken], nonAscii)
              && (taken == |raw| || o + 6 >= out.Length)
              && (forall j :: 0 <= j < taken ==> Fits(h, raw, j, nonAscii, out.Length))
  {
    hide EscapeAll, EscapeChar;
    o, taken := 0, 0;
    EscapeNone(h, raw, nonAscii);
    if out.Length == 0 {
      return;
    }
    var i := 0;
    while i < |raw|
      invariant 0 <= i <= |raw| && taken == i && o < out.Length && out[..o] == EscapeAll(h, raw[..i], nonAscii)
      invariant forall j :: 0 <= j < i ==> Fits(h, raw, j, nonAscii, out.Length)
    {
      if o + ESC_MAX >= out.Length {
        break;
      }
      var piece := EscapeChar(h, raw[i], nonAscii);
      EscapeStep(h, raw, i, nonAscii);
      Put(out, o, piece);
      o, i, taken := o + |piece|, i + 1, i + 1;
    }
    out[o] := 0;
  }

  lemma EscapeStep(h: Host, raw: Text, i: nat, nonAscii: bool)
    requires |h.etoa| == 256 && i < |raw|
    ensures EscapeAll(h, raw[..i + 1], nonAscii) == EscapeAll(h, raw[..i], nonAscii) + EscapeChar(h, raw[i], nonAscii)
  {
    assert raw[..i + 1][..i] == raw[..i];
  }

  lemma EscapeNone(h: Host, raw: Text, nonAscii: bool)
    requires |h.etoa| == 256
    ensures EscapeAll(h, raw[..0], nonAscii) == []
  {
  }

  /** There was room for the longest escape before raw[j] was written. */
  ghost predicate Fits(h: Host, raw: Text, j: nat, nonAscii: bool, size: nat)
    requires |h.etoa| == 256 && j <= |raw|
  {
    |EscapeAll(h, raw[..j], nonAscii)| + 6 < size
  }

  /** What the client gets is text: no control character, and nothing beyond ASCII where that is asked for. */
  lemma CleanText(a: Byte, nonAscii: bool)
    ensures forall i :: 0 <= i < |Escaped(a, nonAscii)| ==>
              var c := Escaped(a, nonAscii)[i];
              32 <= c <= 126 || (160 <= c && !nonAscii)
    ensures Escaped(a, nonAscii) == [a] <==>
              a != 34 && a != 92 && (32 <= a <= 126 || (160 <= a && !nonAscii))
  {
  }

  // --- the calls ---------------------------------------------------------------------------

  /** What the builder holds: the text so far, and its one flag. */
  datatype State = State(text: Text, first: bool)

  function Comma(h: Host, s: State): (t: Text)
    ensures s.text <= t
  {
    if s.first then s.text else s.text + Lit(h, ",")
  }

  function Keyed(h: Host, s: State, key: Text): Text { Comma(h, s) + Lit(h, "\"") + key + Lit(h, "\":") }

  function Quoted(h: Host, text: Text, v: Text): Text
    requires |h.etoa| == 256
  {
    text + Lit(h, "\"") + EscapeAll(h, v, false) + Lit(h, "\"")
  }

  function ObjectStarted(h: Host, s: State): State { State(Comma(h, s) + Lit(h, "{"), true) }

  function ObjectEnded(h: Host, s: State): State { State(s.text + Lit(h, "}"), false) }

  function ArrayStarted(h: Host, s: State): State { s.(text := s.text + Lit(h, "[")) }

  function ArrayKeyStarted(h: Host, s: State, key: Text): State
  {
    State(Comma(h, s) + Lit(h, "\"") + key + Lit(h, "\":["), true)
  }

  function ArrayEnded(h: Host, s: State): State { State(s.text + Lit(h, "]"), false) }

  function BareAdded(h: Host, s: State, key: Text, chars: Text): State { State(Keyed(h, s, key) + chars, false) }

  /** A string, or null for none. */
  function ValueAdded(h: Host, s: State, key: Text, v: Option<Text>): State
    requires |h.etoa| == 256
  {
    if v.None? then BareAdded(h, s, key, Lit(h, "null")) else State(Quoted(h, Keyed(h, s, key), v.value), false)
  }

  function ElementAdded(h: Host, s: State, v: Option<Text>): State
    requires |h.etoa| == 256
  {
    State(if v.None? then Comma(h, s) + Lit(h, "null") else Quoted(h, Comma(h, s), v.value), false)
  }

  /** What "%d" prints. */
  function Decimal(n: int): (s: string)
    ensures s != [] && AllPrintable(s)
    decreases if n < 0 then 1 else 0, if n < 0 then -n else n
  {
    if n < 0 then "-" + Decimal(-n)
    else if n < 10 then ["0123456789"[n]]
    else Decimal(n / 10) + Decimal(n % 10)
  }

  /** The number a run of decimal digits is. */
  function DigitsValue(s: string): int
  {
    if s == "" then 0 else DigitsValue(s[..|s| - 1]) * 10 + (s[|s| - 1] as int - '0' as int)
  }

  lemma DigitValue(d: nat)
    requires d < 10
    ensures "0123456789"[d] as int - '0' as int == d
  {
  }

  /** The number printed is read back, with its sign. */
  lemma {:induction false} DecimalRead(n: int)
    ensures if n < 0 then Decimal(n) == "-" + Decimal(-n) && DigitsValue(Decimal(-n)) == -n
            else DigitsValue(Decimal(n)) == n
    decreases if n < 0 then 1 else 0, if n < 0 then -n else n
  {
    hide Decimal, DigitsValue;
    DecimalParts(n);
    if n < 0 {
      DecimalRead(-n);
    } else {
      DigitValue(n % 10);
      if n >= 10 {
        DecimalRead(n / 10);
        ValueSnoc(Decimal(n / 10), "0123456789"[n % 10]);
      } else {
        ValueSnoc("", "0123456789"[n]);
        NoDigits();
      }
    }
  }

  lemma DecimalParts(n: int)
    ensures n < 0 ==> Decimal(n) == "-" + Decimal(-n)
    ensures 0 <= n < 10 ==> Decimal(n) == "" + ["0123456789"[n]]
    ensures n >= 10 ==> Decimal(n) == Decimal(n / 10) + ["0123456789"[n % 10]]
  {
  }

  lemma NoDigits()
    ensures DigitsValue("") == 0
  {
  }

  lemma ValueSnoc(s: string, c: char)
    ensures DigitsValue(s + [c]) == DigitsValue(s) * 10 + (c as int - '0' as int)
  {
    assert (s + [c])[..|s|] == s;
  }

  function Cut(t: Text): Text { if |t| > TEMP_MAX then t[..TEMP_MAX] else t }

  /** The key of a number passes through a buffer of 256 bytes. */
  function NumberAdded(h: Host, s: State, key: Text, n: int): State
  {
    State(Comma(h, s) + Cut(Lit(h, "\"") + key + Lit(h, "\":")) + Lit(h, Decimal(n)), false)
  }

  /** A number is added like any bare value exactly when its key fits that buffer. */
  lemma NumberKeyFits(h: Host, s: State, key: Text, n: int)
    ensures NumberAdded(h, s, key, n) == BareAdded(h, s, key, Lit(h, Decimal(n))) <==> |key| + 3 <= 255
  {
    var quoted := Lit(h, "\"") + key + Lit(h, "\":");
    if |quoted| <= TEMP_MAX {
      assert Comma(h, s) + quoted == Keyed(h, s, key);
    } else {
      assert |NumberAdded(h, s, key, n).text| < |BareAdded(h, s, key, Lit(h, Decimal(n))).text|;
    }
  }

  // --- the builder -----------------------------------------------------------------------

  class Builder {
    const host: Host
    const grants: nat -> bool
    var buffer: array<Byte>
    var size: nat
    var capacity: nat
    var isFirst: bool
    var requests: nat

    /** The text is terminated, and nowhere before its end. */
    ghost predicate Valid()
      reads this, buffer
    {
      && Faithful(host) && 0 < capacity == buffer.Length && size < capacity
      && buffer[size] == 0 && Solid(buffer[..size])
    }

    function View(): State
      reads this, buffer
      requires size <= buffer.Length
    {
      State(buffer[..size], isFirst)
    }

    constructor (host: Host, grants: nat -> bool)
      requires Faithful(host)
      ensures Valid() && View() == State([], true) && fresh(buffer) && this.host == host && this.grants == grants
    {
      this.host, this.grants := host, grants;
      buffer := new Byte[INITIAL](i => 0);
      capacity, size, isFirst, requests := INITIAL, 0, true, 0;
    }

    /** ensure_capacity(): on failure nothing has changed. */
    method EnsureCapacity(needed: nat) returns (ok: bool)
      requires Valid() && needed > 0
      modifies this`buffer, this`capacity, this`requests
      ensures Valid() && View() == old(View())
      ensures ok ==> size + needed <= capacity
      ensures buffer == old(buffer) || fresh(buffer)
      ensures !ok ==> buffer == old(buffer) && !grants(old(requests)) && old(requests) < requests
      ensures old(requests) <= requests
    {
      if size + needed >= capacity {
        var newCapacity := capacity * GROWTH;
        if newCapacity < size + needed {
          newCapacity := size + needed + INITIAL;
        }
        requests := requests + 1;
        if !grants(requests - 1) {
          return false;
        }
        var b := new Byte[newCapacity](i reads this, buffer => if 0 <= i < buffer.Length then buffer[i] else 0);
        assert b[..size] == buffer[..size];
        buffer, capacity := b, newCapacity;
      }
      return true;
    }

    /** append_string() */
    method Append(s: Text) returns (ok: bool)
      requires Valid() && Solid(s)
      modifies this`buffer, this`capacity, this`requests, this`size, buffer
      ensures Valid() && isFirst == old(isFirst)
      ensures View().text == if ok then old(View().text) + s else old(View().text)
      ensures buffer == old(buffer) || fresh(buffer)
      ensures Refused(ok, old(requests), requests)
    {
      ok := EnsureCapacity(|s| + 1);
      if !ok {
        return;
      }
      Put(buffer, size, s);
      buffer[size + |s|] := 0;
      size := size + |s|;
    }

    /** A literal of the program. */
    method AppendLit(s: string) returns (ok: bool)
      requires Valid() && AllPrintable(s)
      modifies this`buffer, this`capacity, this`requests, this`size, buffer
      ensures Valid() && isFirst == old(isFirst)
      ensures View().text == if ok then old(View().text) + Lit(host, s) else old(View().text)
      ensures buffer == old(buffer) || fresh(buffer)
      ensures Refused(ok, old(requests), requests)
    {
      TranslatedLiteral(host, s);
      ok := Append(Lit(host, s));
    }

    method AppendComma() returns (ok: bool)
      requires Valid()
      modifies this`buffer, this`capacity, this`requests, this`size, buffer
      ensures Valid() && isFirst == old(isFirst)
      ensures View().text == if ok then Comma(host, old(View())) else old(View().text)
      ensures buffer == old(buffer) || fresh(buffer)
      ensures Refused(ok, old(requests), requests)
    {
      ok := true;
      if !isFirst {
        ok := AppendLit(",");
      }
    }

    /** append_quoted(), between the quotes. */
    method AppendEscaped(v: Text) returns (ok: bool)
      requires Valid() && Solid(v)
      modifies this`buffer, this`capacity, this`requests, this`size, buffer
      ensures Valid() && isFirst == old(isFirst)
      ensures old(View().text) <= View().text
      ensures ok ==> View().text == old(View().text) + EscapeAll(host, v, false)
      ensures buffer == old(buffer) || fresh(buffer)
      ensures Refused(ok, old(requests), requests)
    {
      hide EscapeAll, EscapeChar, Solid, Lit;
      assert |host.etoa| == 256;
      ghost var front := View().text;
      EscapeNone(host, v, false);
      assert front + [] == front;
      for i := 0 to |v|
        invariant Valid() && isFirst == old(isFirst)
        invariant View().text == front + EscapeAll(host, v[..i], false)
        invariant buffer == old(buffer) || fresh(buffer)
        invariant Refused(true, old(requests), requests)
      {
        EscapeStep(host, v, i, false);
        SolidPiece(host, v, i);
        ok := Append(EscapeChar(host, v[i], false));
        if !ok {
          return;
        }
        Reassociate(front, EscapeAll(host, v[..i], false), EscapeChar(host, v[i], false));
      }
      assert v[..|v|] == v;
      ok := true;
    }

    method AppendQuoted(v: Text) returns (ok: bool)
      requires Valid() && Solid(v)
      modifies this`buffer, this`capacity, this`requests, this`size, buffer
      ensures Valid() && isFirst == old(isFirst)
      ensures old(View().text) <= View().text
      ensures ok ==> View().text == Quoted(host, old(View().text), v)
      ensures buffer == old(buffer) || fresh(buffer)
      ensures Refused(ok, old(requests), requests)
    {
      hide EscapeAll, Faithful, Solid, Lit;
      ok := AppendLit("\"");
      if ok {
        ok := AppendEscaped(v);
      }
      if ok {
        ok := AppendLit("\"");
      }
    }

    /** The separator and the key. */
    method AppendKey(key: Text, behind: string) returns (ok: bool)
      requires Valid() && Solid(key) && AllPrintable(behind)
      modifies this`buffer, this`capacity, this`requests, this`size, buffer
      ensures Valid() && isFirst == old(isFirst)
      ensures old(View().text) <= View().text
      ensures ok ==> View().text == Comma(host, old(View())) + Lit(host, "\"") + key + Lit(host, behind)
      ensures buffer == old(buffer) || fresh(buffer)
      ensures Refused(ok, old(requests), requests)
    {
      hide Solid, Faithful, Comma, Lit;
      ok := AppendComma();
      if ok {
        ok := AppendLit("\"");
      }
      if ok {
        ok := Append(key);
      }
      if ok {
        ok := AppendLit(behind);
      }
    }

    /** What every call keeps, and what a failed one leaves: the text so far and something behind it. */
    twostate predicate Called(ok: bool)
      reads this, buffer
    {
      && Valid() && (buffer == old(buffer) || fresh(buffer))
      && Refused(ok, old(requests), requests)
      && old(size) <= old(buffer.Length)
      && (!ok ==> isFirst == old(isFirst) && old(buffer[..size]) <= buffer[..size])
    }

    /** startJsonObject() */
    method StartObject() returns (ok: bool)
      requires Valid()
      modifies this, buffer
      ensures Called(ok) && (ok ==> View() == ObjectStarted(host, old(View())))
    {
      hide Solid, Faithful, Lit;
      ok := AppendComma();
      if ok {
        ok := AppendLit("{");
      }
      if ok {
        isFirst := true;
      }
    }

    /** endJsonObject() */
    method EndObject() returns (ok: bool)
      requires Valid()
      modifies this, buffer
      ensures Called(ok) && (ok ==> View() == ObjectEnded(host, old(View())))
    {
      ok := AppendLit("}");
      if ok {
        isFirst := false;
      }
    }

    /** startArray(): the flag stays as it is. */
    method StartArray() returns (ok: bool)
      requires Valid()
      modifies this, buffer
      ensures Called(ok) && (ok ==> View() == ArrayStarted(host, old(View())))
    {
      ok := AppendLit("[");
    }

    /** startJsonArrayKey() */
    method StartArrayKey(key: Text) returns (ok: bool)
      requires Valid() && Solid(key)
      modifies this, buffer
      ensures Called(ok) && (ok ==> View() == ArrayKeyStarted(host, old(View()), key))
    {
      ok := AppendKey(key, "\":[");
      if ok {
        isFirst := true;
      }
    }

    /** endArray() */
    method EndArray() returns (ok: bool)
      requires Valid()
      modifies this, buffer
      ensures Called(ok) && (ok ==> View() == ArrayEnded(host, old(View())))
    {
      ok := AppendLit("]");
      if ok {
        isFirst := false;
      }
    }

    /** addJsonRaw() */
    method AddRaw(key: Text, raw: Text) returns (ok: bool)
      requires Valid() && Solid(key) && Solid(raw)
      modifies this, buffer
      ensures Called(ok) && (ok ==> View() == BareAdded(host, old(View()), key, raw))
    {
      hide Solid, Faithful, Lit;
      ok := AppendKey(key, "\":");
      if ok {
        ok := Append(raw);
      }
      if ok {
        isFirst := false;
      }
    }

    /** addJsonBool() */
    method AddBool(key: Text, value: bool) returns (ok: bool)
      requires Valid() && Solid(key)
      modifies this, buffer
      ensures Called(ok)
      ensures ok ==> View() == BareAdded(host, old(View()), key, Lit(host, if value then "true" else "false"))
    {
      hide Solid, Faithful, Lit;
      ok := AppendKey(key, "\":");
      if ok {
        ok := AppendLit(if value then "true" else "false");
      }
      if ok {
        isFirst := false;
      }
    }

    /** addJsonStringEsc() and addJsonString() */
    method AddString(key: Text, value: Option<Text>) returns (ok: bool)
      requires Valid() && Solid(key) && (value.Some? ==> Solid(value.value))
      modifies this, buffer
      ensures Called(ok) && (ok ==> View() == ValueAdded(host, old(View()), key, value))
    {
      hide Solid, Faithful, Lit;
      ok := AppendKey(key, "\":");
      if ok {
        if value.None? {
          ok := AppendLit("null");
        } else {
          ok := AppendQuoted(value.value);
        }
      }
      if ok {
        isFirst := false;
      }
    }

    /** addJsonArrayString() */
    method AddElement(value: Option<Text>) returns (ok: bool)
      requires Valid() && (value.Some? ==> Solid(value.value))
      modifies this, buffer
      ensures Called(ok) && (ok ==> View() == ElementAdded(host, old(View()), value))
    {
      hide Solid, Faithful, Lit;
      ok := AppendComma();
      if ok {
        if value.None? {
          ok := AppendLit("null");
        } else {
          ok := AppendQuoted(value.value);
        }
      }
      if ok {
        isFirst := false;
      }
    }

    /** The key as snprintf() leaves it. */
    method AppendNumberKey(key: Text) returns (ok: bool)
      requires Valid() && Solid(key)
      modifies this`buffer, this`capacity, this`requests, this`size, buffer
      ensures Valid() && isFirst == old(isFirst)
      ensures View().text ==
        if ok then old(View().text) + Cut(Lit(host, "\"") + key + Lit(host, "\":")) else old(View().text)
      ensures buffer == old(buffer) || fresh(buffer)
      ensures Refused(ok, old(requests), requests)
    {
      TranslatedLiteral(host, "\"");
      TranslatedLiteral(host, "\":");
      ok := Append(Cut(Lit(host, "\"") + key + Lit(host, "\":")));
    }

    /** addJsonNumber() */
    method AddNumber(key: Text, value: int) returns (ok: bool)
      requires Valid() && Solid(key)
      modifies this, buffer
      ensures Called(ok) && (ok ==> View() == NumberAdded(host, old(View()), key, value))
    {
      hide Faithful, Solid, Comma, Lit, Cut;
      ok := AppendComma();
      if ok {
        ok := AppendNumberKey(key);
      }
      if ok {
        ok := AppendLit(Decimal(value));
      }
      if ok {
        isFirst := false;
      }
    }

    /** A call fails only if a request for storage did. */
    ghost predicate Refused(ok: bool, before: nat, after: nat)
    {
      before <= after && (!ok ==> exists i :: before <= i < after && !grants(i))
    }
  }

  /** No NUL among the bytes: they are a C string's. */
  predicate Solid(t: Text) { forall i :: 0 <= i < |t| ==> t[i] != 0 }

  lemma SolidPiece(h: Host, v: Text, i: nat)
    requires Faithful(h) && Solid(v) && i < |v|
    ensures Solid(EscapeChar(h, v[i], false))
  {
    TranslatedLiteral(h, Escape(h.etoa[v[i]], false));
  }

  lemma Reassociate(a: Text, b: Text, c: Text)
    ensures a + (b + c) == a + b + c
  {
  }
}
