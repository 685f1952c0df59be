/** The byte-level helpers that Region.cpp and Nationality.cpp each define in
    their anonymous namespace with the same text: trim, upper_ascii and the
    character tests. Characters above 127 stand for the non-ASCII bytes. */
module AsciiText {
  predicate IsBlank(c: char) {
    c == ' ' || c == '\t' || c == '\r' || c == '\n'
  }

  predicate IsLower(c: char) {
    'a' <= c <= 'z'
  }

  predicate IsUpper(c: char) {
    'A' <= c <= 'Z'
  }

  predicate IsAlpha(c: char) {
    IsLower(c) || IsUpper(c)
  }

  /** `toupper` in the "C" locale: only the 26 lower-case letters change. */
  function Upper(c: char): char {
    if IsLower(c) then (c as int - 32) as char else c
  }

  /** Letter by letter: a becomes A, and so on to z; nothing else changes. */
  lemma UpperLetter(c: char)
    ensures 'a' <= c <= 'z' ==> Upper(c) as int - 'A' as int == c as int - 'a' as int
    ensures !('a' <= c <= 'z') ==> Upper(c) == c
  {
  }

  function TrimLeft(s: string): (t: string)
    ensures |t| <= |s|
    ensures t != [] ==> !IsBlank(t[0])
  {
    if s != [] && IsBlank(s[0]) then TrimLeft(s[1..]) else s
  }

  function TrimRight(s: string): (t: string)
    ensures t <= s
    ensures t != [] ==> !IsBlank(t[|t| - 1])
  {
    if s != [] && IsBlank(s[|s| - 1]) then TrimRight(s[..|s| - 1]) else s
  }

  function Trim(s: string): string {
    TrimRight(TrimLeft(s))
  }

  predicate AllBlank(s: string) {
    forall i :: 0 <= i < |s| ==> IsBlank(s[i])
  }

  /** No blank at either end. */
  predicate Trimmed(s: string) {
    s != [] ==> !IsBlank(s[0]) && !IsBlank(s[|s| - 1])
  }

  /** Blanks, tabs, carriage returns and line feeds. */
  predicate OnlyBlanks(s: string) {
    forall i :: 0 <= i < |s| ==> s[i] in {' ', '\t', '\r', '\n'}
  }

  lemma {:induction false} CutLeft(s: string) returns (left: string)
    ensures s == left + TrimLeft(s) && OnlyBlanks(left)
  {
    if s != [] && IsBlank(s[0]) {
      left := CutLeft(s[1..]);
      left := [s[0]] + left;
    } else {
      left := [];
    }
  }

  lemma {:induction false} CutRight(s: string) returns (right: string)
    ensures s == TrimRight(s) + right && OnlyBlanks(right)
  {
    if s != [] && IsBlank(s[|s| - 1]) {
      right := CutRight(s[..|s| - 1]);
      right := right + [s[|s| - 1]];
    } else {
      right := [];
    }
  }

  /** What `trim` does: it cuts blanks off both ends, until none is left there. */
  lemma TrimMeaning(s: string) returns (left: string, right: string)
    ensures s == left + Trim(s) + right && OnlyBlanks(left) && OnlyBlanks(right)
    ensures Trim(s) != "" ==> Trim(s)[0] !in {' ', '\t', '\r', '\n'} && Trim(s)[|Trim(s)| - 1] !in {' ', '\t', '\r', '\n'}
  {
    left := CutLeft(s);
    right := CutRight(TrimLeft(s));
    assert Trim(s) != "" ==> Trim(s)[0] == TrimLeft(s)[0];
  }

  lemma TrimOfTrimmed(s: string)
    requires Trimmed(s)
    ensures Trim(s) == s
  {
  }

  lemma {:induction false} TrimLeftPad(pad: string, s: string)
    requires AllBlank(pad)
    ensures TrimLeft(pad + s) == TrimLeft(s)
  {
    if pad == [] {
      assert pad + s == s;
    } else {
      assert (pad + s)[1..] == pad[1..] + s;
      TrimLeftPad(pad[1..], s);
    }
  }

  lemma {:induction false} TrimRightPad(s: string, pad: string)
    requires AllBlank(pad)
    ensures TrimRight(s + pad) == TrimRight(s)
  {
    if pad == [] {
      assert s + pad == s;
    } else {
      var p := pad[..|pad| - 1];
      assert (s + pad)[..|s + pad| - 1] == s + p;
      TrimRightPad(s, p);
    }
  }

  lemma {:induction false} TrimLeftOfBlank(s: string)
    requires AllBlank(s)
    ensures TrimLeft(s) == []
  {
    if s != [] {
      TrimLeftOfBlank(s[1..]);
    }
  }

  lemma {:induction false} TrimLeftAppend(s: string, pad: string)
    requires !AllBlank(s)
    ensures TrimLeft(s + pad) == TrimLeft(s) + pad
  {
    if IsBlank(s[0]) {
      assert (s + pad)[1..] == s[1..] + pad;
      assert !AllBlank(s[1..]) by {
        var i :| 0 <= i < |s| && !IsBlank(s[i]);
        assert s[1..][i - 1] == s[i];
      }
      TrimLeftAppend(s[1..], pad);
    }
  }

  /** Blank padding on either side does not change what `trim` returns. */
  lemma TrimPad(left: string, s: string, right: string)
    requires AllBlank(left) && AllBlank(right)
    ensures Trim(left + s + right) == Trim(s)
  {
    assert left + s + right == left + (s + right);
    TrimLeftPad(left, s + right);
    if AllBlank(s) {
      assert AllBlank(s + right);
      TrimLeftOfBlank(s + right);
      TrimLeftOfBlank(s);
    } else {
      TrimLeftAppend(s, right);
      TrimRightPad(TrimLeft(s), right);
    }
  }

  function UpperAll(s: string): (t: string)
    ensures |t| == |s|
    ensures forall i :: 0 <= i < |s| ==> t[i] == Upper(s[i])
  {
    seq(|s|, i requires 0 <= i < |s| => Upper(s[i]))
  }

  /** Two strings that differ only in the case of ASCII letters. */
  predicate SameUpToCase(s: string, t: string) {
    UpperAll(s) == UpperAll(t)
  }

  lemma {:induction false} TrimLeftUpper(s: string)
    ensures UpperAll(TrimLeft(s)) == TrimLeft(UpperAll(s))
  {
    if s != [] && IsBlank(s[0]) {
      TrimLeftUpper(s[1..]);
      assert UpperAll(s)[1..] == UpperAll(s[1..]);
    }
  }

  lemma {:induction false} TrimRightUpper(s: string)
    ensures UpperAll(TrimRight(s)) == TrimRight(UpperAll(s))
  {
    if s != [] && IsBlank(s[|s| - 1]) {
      TrimRightUpper(s[..|s| - 1]);
      assert UpperAll(s)[..|s| - 1] == UpperAll(s[..|s| - 1]);
    }
  }

  /** Upper-casing commutes with trimming. */
  lemma TrimUpper(s: string)
    ensures UpperAll(Trim(s)) == Trim(UpperAll(s))
  {
    TrimLeftUpper(s);
    TrimRightUpper(TrimLeft(s));
  }
}
