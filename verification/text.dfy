/** The string helpers shared by the store and the sheets: trimming of
    whitespace and newlines, lower-casing and taking a one-character prefix.
    A Swift `Character` is modelled as one `char`. */
module Text {

  /** The characters Foundation's `.whitespacesAndNewlines` set contains
      (Unicode White_Space). */
  predicate IsSpace(c: char) {
    || c == ' ' || c == '\t' || c == '\n' || c == '\r'
    || c == '\U{000B}' || c == '\U{000C}' || c == '\U{0085}' || c == '\U{00A0}'
    || c == '\U{1680}' || ('\U{2000}' <= c <= '\U{200A}')
    || c == '\U{2028}' || c == '\U{2029}' || c == '\U{202F}' || c == '\U{205F}'
    || c == '\U{3000}'
  }

  /** True when neither end of `s` is whitespace: the strings `Trim` returns. */
  predicate IsTrimmed(s: string) {
    s == [] || (!IsSpace(s[0]) && !IsSpace(s[|s| - 1]))
  }

  /** True when every character of `s` is whitespace. */
  predicate AllSpace(s: string) {
    forall i :: 0 <= i < |s| ==> IsSpace(s[i])
  }

  /** Drops the leading whitespace of `s`. */
  function TrimStart(s: string): (r: string)
    ensures |r| <= |s|
    ensures r == [] || !IsSpace(r[0])
  {
    if |s| > 0 && IsSpace(s[0]) then TrimStart(s[1..]) else s
  }

  /** `TrimStart` removes a prefix made only of whitespace. */
  lemma {:induction false} TrimStartDrops(s: string)
    ensures TrimStart(s) == s[|s| - |TrimStart(s)|..]
    ensures AllSpace(s[..|s| - |TrimStart(s)|])
    decreases |s|
  {
    if |s| > 0 && IsSpace(s[0]) {
      TrimStartDrops(s[1..]);
      var k := |s| - |TrimStart(s)|;
      assert s[1..][..k - 1] == s[1..k];
      assert s[1..][k - 1..] == s[k..];
    }
  }

  /** Drops the trailing whitespace of `s`. */
  function TrimEnd(s: string): (r: string)
    ensures |r| <= |s|
    ensures r == [] || !IsSpace(r[|r| - 1])
  {
    if |s| > 0 && IsSpace(s[|s| - 1]) then TrimEnd(s[..|s| - 1]) else s
  }

  /** `TrimEnd` removes a suffix made only of whitespace. */
  lemma {:induction false} TrimEndDrops(s: string)
    ensures TrimEnd(s) == s[..|TrimEnd(s)|]
    ensures AllSpace(s[|TrimEnd(s)|..])
    decreases |s|
  {
    if |s| > 0 && IsSpace(s[|s| - 1]) {
      TrimEndDrops(s[..|s| - 1]);
      var k := |TrimEnd(s)|;
      assert s[..|s| - 1][..k] == s[..k];
      assert s[..|s| - 1][k..] == s[k..|s| - 1];
    }
  }

  /** Whitespace and newlines removed from both ends. */
  function Trim(s: string): (r: string)
    ensures IsTrimmed(r)
    ensures |r| <= |s|
    ensures r == [] <==> AllSpace(s)
    ensures IsTrimmed(s) ==> r == s
  {
    var u := TrimStart(s);
    var t := TrimEnd(u);
    TrimStartDrops(s);
    TrimEndDrops(u);
    assert t == [] ==> AllSpace(s) by {
      if t == [] {
        assert u == [];
        assert s[..|s|] == s;
      }
    }
    assert t != [] ==> !AllSpace(s) by {
      if t != [] {
        assert u[0] == s[|s| - |u|];
      }
    }
    t
  }

  /** The trimmed string is a contiguous slice of the input with only
      whitespace cut away on either side. */
  lemma TrimIsSlice(s: string)
    ensures exists i :: 0 <= i <= |s| - |Trim(s)| && Trim(s) == s[i..i + |Trim(s)|]
                        && AllSpace(s[..i]) && AllSpace(s[i + |Trim(s)|..])
  {
    var u := TrimStart(s);
    var t := TrimEnd(u);
    TrimStartDrops(s);
    TrimEndDrops(u);
    var i := |s| - |u|;
    assert t == s[i..i + |t|] by {
      assert u == s[i..];
      assert u[..|t|] == s[i..i + |t|];
    }
    assert s[i + |t|..] == u[|t|..];
  }

  /** Trimming twice is trimming once. */
  lemma TrimIdempotent(s: string)
    ensures Trim(Trim(s)) == Trim(s)
  {
  }

  /** A single non-whitespace character survives trimming unchanged. */
  lemma TrimSingle(c: char)
    requires !IsSpace(c)
    ensures Trim([c]) == [c]
  {
  }

  /** ASCII lower-casing of one character. */
  function LowerChar(c: char): (r: char)
    ensures !('A' <= r <= 'Z')
    ensures !('A' <= c <= 'Z') ==> r == c
  {
    if 'A' <= c <= 'Z' then (c as int - 'A' as int + 'a' as int) as char else c
  }

  /** `lowercased()`, restricted to ASCII letters. */
  function Lower(s: string): (r: string)
    ensures |r| == |s|
    ensures forall i :: 0 <= i < |s| ==> r[i] == LowerChar(s[i])
  {
    seq(|s|, i requires 0 <= i < |s| => LowerChar(s[i]))
  }

  /** Lower-casing is idempotent and keeps emptiness. */
  lemma LowerIdempotent(s: string)
    ensures Lower(Lower(s)) == Lower(s)
    ensures Lower(s) == [] <==> s == []
  {
  }

  /** The first character as a string, or "" for "". */
  function Prefix1(s: string): (r: string)
    ensures |r| <= 1
    ensures r == [] <==> s == []
    ensures s != [] ==> r == [s[0]]
  {
    if |s| == 0 then s else s[..1]
  }

  /** Trimming then taking the first character yields a string that trimming
      and taking the first character leave as it is. */
  lemma TrimPrefixStable(s: string)
    ensures Prefix1(Trim(Prefix1(Trim(s)))) == Prefix1(Trim(s))
    ensures Trim(Prefix1(Trim(s))) == Prefix1(Trim(s))
  {
    var t := Trim(s);
    if t != [] {
      TrimSingle(t[0]);
    }
  }
}
