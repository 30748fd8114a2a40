// Trailing blanks, and the smaller of two lengths.
module Texts {
  /** s without its trailing blanks. */
  function TrimRight(s: string): (t: string)
    ensures t <= s && (t != "" ==> t[|t| - 1] != ' ') && (forall i :: |t| <= i < |s| ==> s[i] == ' ')
  {
    if s != "" && s[|s| - 1] == ' ' then TrimRight(s[..|s| - 1]) else s
  }

  /** Blanks behind a text are trimmed off it. */
  lemma {:induction false} TrimmedOff(text: string, blanks: string)
    requires text == "" || text[|text| - 1] != ' '
    requires forall i :: 0 <= i < |blanks| ==> blanks[i] == ' '
    ensures TrimRight(text + blanks) == text
    decreases |blanks|
  {
    if blanks == "" {
      assert text + blanks == text;
    } else {
      var front := blanks[..|blanks| - 1];
      assert (text + blanks)[..|text + blanks| - 1] == text + front;
      TrimmedOff(text, front);
    }
  }

  /** The loop that drops them, as in rstrip_len(). */
  method TrimmedLength(s: string) returns (len: nat)
    ensures len <= |s| && s[..len] == TrimRight(s)
  {
    len := |s|;
    assert s[..len] == s;
    while len > 0 && s[len - 1] == ' '
      invariant len <= |s| && TrimRight(s[..len]) == TrimRight(s)
    {
      assert s[..len][..len - 1] == s[..len - 1];
      len := len - 1;
    }
  }

  function Least(a: nat, b: nat): nat { if a < b then a else b }
}
