/** The string handling the user resolver relies on: .NET's white-space test, Trim, and
    lower-casing, with the email normalisation built from them. */
module Text {
  import opened Models

  /** .NET's char.IsWhiteSpace: the control characters TAB..CR, NEL, and the Unicode space,
      line and paragraph separators. */
  predicate IsWhiteSpace(c: char) {
    || ('\U{9}' <= c <= '\U{D}')
    || c == ' ' || c == '\U{85}' || c == '\U{A0}' || c == '\U{1680}'
    || ('\U{2000}' <= c <= '\U{200A}')
    || c == '\U{2028}' || c == '\U{2029}' || c == '\U{202F}' || c == '\U{205F}' || c == '\U{3000}'
  }

  predicate AllWhiteSpace(s: string) {
    forall i :: 0 <= i < |s| ==> IsWhiteSpace(s[i])
  }

  /** string.IsNullOrWhiteSpace; `None` stands for a null reference. */
  predicate IsNullOrWhiteSpace(s: Option<string>) {
    s.None? || AllWhiteSpace(s.value)
  }

  /** The number of white-space characters at the start of `s`. */
  function LeadingWhiteSpace(s: string): (n: nat)
    ensures n <= |s|
    ensures forall i :: 0 <= i < n ==> IsWhiteSpace(s[i])
    ensures n < |s| ==> !IsWhiteSpace(s[n])
  {
    if s == [] || !IsWhiteSpace(s[0]) then 0 else 1 + LeadingWhiteSpace(s[1..])
  }

  /** The number of white-space characters at the end of `s`. */
  function TrailingWhiteSpace(s: string): (n: nat)
    ensures n <= |s|
    ensures forall i :: |s| - n <= i < |s| ==> IsWhiteSpace(s[i])
    ensures n < |s| ==> !IsWhiteSpace(s[|s| - 1 - n])
  {
    if s == [] || !IsWhiteSpace(s[|s| - 1]) then 0 else 1 + TrailingWhiteSpace(s[..|s| - 1])
  }

  /** string.Trim(): drop white space at both ends. The result is the slice of `s` between
      the leading and the trailing white space, and neither of its ends is white space. */
  function Trim(s: string): (r: string)
    ensures var n := LeadingWhiteSpace(s);
      && n + |r| <= |s|
      && r == s[n..n + |r|]
      && AllWhiteSpace(s[..n])
      && AllWhiteSpace(s[n + |r|..])
    ensures r != [] ==> !IsWhiteSpace(r[0]) && !IsWhiteSpace(r[|r| - 1])
    ensures r == [] <==> AllWhiteSpace(s)
  {
    var n := LeadingWhiteSpace(s);
    var t := s[n..];
    var r := t[..|t| - TrailingWhiteSpace(t)];
    TrimmedSlice(s, n, t, r);
    r
  }

  /** The slice Trim returns lies between the white space at both ends of `s`. */
  lemma TrimmedSlice(s: string, n: nat, t: string, r: string)
    requires n == LeadingWhiteSpace(s) && t == s[n..] && r == t[..|t| - TrailingWhiteSpace(t)]
    ensures n + |r| <= |s|
    ensures r == s[n..n + |r|]
    ensures AllWhiteSpace(s[..n])
    ensures AllWhiteSpace(s[n + |r|..])
    ensures r != [] ==> !IsWhiteSpace(r[0]) && !IsWhiteSpace(r[|r| - 1])
    ensures r == [] <==> AllWhiteSpace(s)
  {
    forall j | n + |r| <= j < |s| ensures IsWhiteSpace(s[j]) {
      assert s[j] == t[j - n];
    }
    if r == [] {
      assert AllWhiteSpace(t);
      assert s == s[..n] + t;
    } else {
      assert r[0] == t[0] && r[|r| - 1] == t[|t| - 1 - TrailingWhiteSpace(t)];
    }
  }

  predicate IsUpper(c: char) { 'A' <= c <= 'Z' }

  /** Lower-casing of one character, for the ASCII letters. */
  function ToLowerChar(c: char): (d: char)
    ensures !IsUpper(d)
    ensures IsUpper(c) ==> 'a' <= d <= 'z' && d as int - 'a' as int == c as int - 'A' as int
    ensures IsWhiteSpace(d) <==> IsWhiteSpace(c)
    ensures !IsUpper(c) ==> d == c
  {
    if IsUpper(c) then (c as int + 32) as char else c
  }

  /** string.ToLowerInvariant(), for the ASCII letters: every character mapped in place. */
  function ToLower(s: string): (r: string)
    ensures |r| == |s|
    ensures forall i :: 0 <= i < |r| ==> r[i] == ToLowerChar(s[i])
  {
    seq(|s|, i requires 0 <= i < |s| => ToLowerChar(s[i]))
  }

  /** The lookup key of the user resolver: `email.Trim().ToLowerInvariant()`. */
  function NormalizeEmail(email: string): (key: string)
    ensures |key| <= |email|
    ensures key == [] <==> AllWhiteSpace(email)
    ensures key != [] ==> !IsWhiteSpace(key[0]) && !IsWhiteSpace(key[|key| - 1])
    ensures forall i :: 0 <= i < |key| ==> !IsUpper(key[i])
  {
    ToLower(Trim(email))
  }

  /** Lower-casing an already lower-case string changes nothing. */
  lemma ToLowerIdempotent(s: string)
    requires forall i :: 0 <= i < |s| ==> !IsUpper(s[i])
    ensures ToLower(s) == s
  {
  }

  /** A string with no white space at either end is its own trim. */
  lemma TrimOfTrimmed(s: string)
    requires s != [] ==> !IsWhiteSpace(s[0]) && !IsWhiteSpace(s[|s| - 1])
    ensures Trim(s) == s
  {
    assert LeadingWhiteSpace(s) == 0;
    if s != [] {
      assert TrailingWhiteSpace(s) == 0;
    }
  }

  /** Normalising a normalised email changes nothing: the key is a fixed point, so looking
      up a stored (normalised) email under its own key finds it. */
  lemma NormalizeIdempotent(email: string)
    ensures NormalizeEmail(NormalizeEmail(email)) == NormalizeEmail(email)
  {
    var key := NormalizeEmail(email);
    TrimOfTrimmed(key);
    ToLowerIdempotent(key);
  }

  /** An email that passes the IsNullOrWhiteSpace guard has a non-empty key. */
  lemma NonBlankEmailHasKey(email: Option<string>)
    requires !IsNullOrWhiteSpace(email)
    ensures NormalizeEmail(email.value) != []
  {
  }
}
