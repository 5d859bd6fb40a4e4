/** The JavaScript string built-ins the matchmaking code uses: trim, toLowerCase, toUpperCase.
    Whitespace follows the ECMAScript WhiteSpace and LineTerminator sets; case mapping covers
    the ASCII letters only. */
module Text {

  /** True for the code points String.prototype.trim removes. */
  predicate IsJsSpace(c: char) {
    c == '\t' || c == '\n' || c == '\U{B}' || c == '\U{C}' || c == '\r' || c == ' '
    || c == '\U{A0}' || c == '\U{1680}' || ('\U{2000}' <= c <= '\U{200A}')
    || c == '\U{2028}' || c == '\U{2029}' || c == '\U{202F}' || c == '\U{205F}'
    || c == '\U{3000}' || c == '\U{FEFF}'
  }

  /** Drops leading whitespace. */
  function TrimStart(s: string): string {
    if s != [] && IsJsSpace(s[0]) then TrimStart(s[1..]) else s
  }

  /** Drops trailing whitespace. */
  function TrimEnd(s: string): string {
    if s != [] && IsJsSpace(s[|s| - 1]) then TrimEnd(s[..|s| - 1]) else s
  }

  /** TrimStart removes a run of whitespace from the front and stops at the first non-space. */
  lemma {:induction false} TrimStartFacts(s: string)
    ensures |TrimStart(s)| <= |s| && TrimStart(s) == s[|s| - |TrimStart(s)|..]
    ensures forall i :: 0 <= i < |s| - |TrimStart(s)| ==> IsJsSpace(s[i])
    ensures TrimStart(s) != [] ==> !IsJsSpace(TrimStart(s)[0])
  {
    if s != [] && IsJsSpace(s[0]) {
      var r := TrimStart(s[1..]);
      TrimStartFacts(s[1..]);
      assert TrimStart(s) == r;
      assert s[1..][|s| - 1 - |r|..] == s[|s| - |r|..];
      forall i | 0 <= i < |s| - |r|
        ensures IsJsSpace(s[i])
      {
        if i > 0 {
          assert s[i] == s[1..][i - 1];
        }
      }
    }
  }

  /** TrimEnd removes a run of whitespace from the back and stops at the last non-space. */
  lemma {:induction false} TrimEndFacts(s: string)
    ensures |TrimEnd(s)| <= |s| && TrimEnd(s) == s[..|TrimEnd(s)|]
    ensures forall i :: |TrimEnd(s)| <= i < |s| ==> IsJsSpace(s[i])
    ensures TrimEnd(s) != [] ==> !IsJsSpace(TrimEnd(s)[|TrimEnd(s)| - 1])
  {
    if s != [] && IsJsSpace(s[|s| - 1]) {
      var r := TrimEnd(s[..|s| - 1]);
      TrimEndFacts(s[..|s| - 1]);
      assert TrimEnd(s) == r;
      assert s[..|s| - 1][..|r|] == s[..|r|];
      forall i | |r| <= i < |s|
        ensures IsJsSpace(s[i])
      {
        if i < |s| - 1 {
          assert s[i] == s[..|s| - 1][i];
        }
      }
    }
  }

  /** String.prototype.trim. */
  function Trim(s: string): string {
    TrimEnd(TrimStart(s))
  }

  /** A string with no whitespace at either end. */
  predicate IsTrimmed(s: string) {
    s == [] || (!IsJsSpace(s[0]) && !IsJsSpace(s[|s| - 1]))
  }

  predicate IsAsciiUpper(c: char) { 'A' <= c <= 'Z' }

  predicate IsAsciiLower(c: char) { 'a' <= c <= 'z' }

  function LowerChar(c: char): char {
    if IsAsciiUpper(c) then (c as int + 32) as char else c
  }

  function UpperChar(c: char): char {
    if IsAsciiLower(c) then (c as int - 32) as char else c
  }

  /** String.prototype.toLowerCase, over ASCII. */
  function ToLower(s: string): string {
    seq(|s|, i requires 0 <= i < |s| => LowerChar(s[i]))
  }

  /** A string toLowerCase leaves alone. */
  predicate IsLower(s: string) {
    forall i :: 0 <= i < |s| ==> !IsAsciiUpper(s[i])
  }

  lemma TrimIsTrimmed(s: string)
    ensures IsTrimmed(Trim(s))
  {
    var t := TrimStart(s);
    var r := TrimEnd(t);
    TrimStartFacts(s);
    TrimEndFacts(t);
    if r != [] {
      assert r[0] == t[0];
    }
  }

  /** Trimming a trimmed string changes nothing. */
  lemma {:induction false} TrimOfTrimmed(s: string)
    requires IsTrimmed(s)
    ensures Trim(s) == s
  {
    assert TrimStart(s) == s;
    assert TrimEnd(s) == s;
  }

  /** Lower-casing never turns a non-space into a space or back, and its result is lower case. */
  lemma ToLowerFacts(s: string)
    ensures |ToLower(s)| == |s| && IsLower(ToLower(s))
    ensures forall i :: 0 <= i < |s| ==> (IsJsSpace(ToLower(s)[i]) <==> IsJsSpace(s[i]))
    ensures IsTrimmed(s) ==> IsTrimmed(ToLower(s))
  {
  }

  /** Lower-casing a lower-case string changes nothing. */
  lemma ToLowerOfLower(s: string)
    requires IsLower(s)
    ensures ToLower(s) == s
  {
  }
}
