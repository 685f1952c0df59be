/** Region strings and their canonical ISO 3166-2 subdivision form. */
module Region {
  import opened AsciiText
  import opened Decimal

  predicate IsAlnum(c: char) {
    IsAlpha(c) || IsDigit(c)
  }

  /** Two letters, a dash, then one to three letters or digits. */
  predicate IsCode(value: string) {
    && 4 <= |value| <= 6
    && IsAlpha(value[0]) && IsAlpha(value[1]) && value[2] == '-'
    && forall i :: 3 <= i < |value| ==> IsAlnum(value[i])
  }

  predicate NoLower(s: string) {
    forall i :: 0 <= i < |s| ==> !IsLower(s[i])
  }

  /** The stored form of a region: check the trimmed text, then upper-case it. */
  function Canonical(value: string): (code: string)
    ensures code == "" || (IsCode(code) && NoLower(code))
    ensures code == "" <==> !IsCode(Trim(value))
  {
    if IsCode(Trim(value)) then UpperAll(Trim(value)) else ""
  }

  /** Which inputs have a code, and the code letter by letter. */
  lemma CanonicalLetters(value: string)
    ensures var t, code := Trim(value), Canonical(value);
            && (code != "" <==>
                  && 4 <= |t| <= 6 && t[2] == '-'
                  && (forall i :: 0 <= i < 2 ==> 'a' <= t[i] <= 'z' || 'A' <= t[i] <= 'Z')
                  && (forall i :: 3 <= i < |t| ==> 'a' <= t[i] <= 'z' || 'A' <= t[i] <= 'Z' || '0' <= t[i] <= '9'))
            && (code != "" ==>
                  && |code| == |t|
                  && forall i :: 0 <= i < |t| ==>
                       if 'a' <= t[i] <= 'z' then code[i] as int - 'A' as int == t[i] as int - 'a' as int else code[i] == t[i])
  {
    var t := Trim(value);
    if |t| >= 4 && forall i :: 0 <= i < 2 ==> 'a' <= t[i] <= 'z' || 'A' <= t[i] <= 'Z' {
      assert IsAlpha(t[0]) && IsAlpha(t[1]);
    }
  }

  method IsValidRegion(value: string) returns (valid: bool)
    ensures valid <==> IsCode(value)
  {
    if |value| < 4 || |value| > 6 || value[2] != '-' {
      return false;
    }
    if !IsAlpha(value[0]) || !IsAlpha(value[1]) {
      return false;
    }
    for i := 3 to |value|
      invariant forall j :: 3 <= j < i ==> IsAlnum(value[j])
    {
      if !IsAlpha(value[i]) && !IsDigit(value[i]) {
        return false;
      }
    }
    return true;
  }

  lemma CodeUpToCase(s: string)
    ensures IsCode(UpperAll(s)) <==> IsCode(s)
  {
    var t := UpperAll(s);
    if IsCode(t) {
      forall i | 3 <= i < |s| ensures IsAlnum(s[i]) {
        assert IsAlnum(t[i]);
      }
    }
  }

  /** The source upper-cases in place and then checks; `Canonical` checks first. */
  method NormalizeRegion(value: string) returns (code: string)
    ensures code == Canonical(value)
  {
    var trimmed := Trim(value);
    var normalized := trimmed;
    for i := 0 to |normalized|
      invariant |normalized| == |trimmed|
      invariant forall j :: 0 <= j < i ==> normalized[j] == Upper(trimmed[j])
      invariant forall j :: i <= j < |normalized| ==> normalized[j] == trimmed[j]
    {
      normalized := normalized[i := Upper(normalized[i])];
    }
    assert normalized == UpperAll(trimmed);
    CodeUpToCase(trimmed);
    var valid := IsValidRegion(normalized);
    if !valid {
      return "";
    }
    return normalized;
  }

  lemma CodeIsTrimmed(s: string)
    requires IsCode(s)
    ensures Trim(s) == s
  {
    assert IsAlnum(s[|s| - 1]);
    TrimOfTrimmed(s);
  }

  lemma CanonicalIdempotent(value: string)
    ensures Canonical(Canonical(value)) == Canonical(value)
  {
    var code := Canonical(value);
    if code != "" {
      CodeIsTrimmed(code);
      assert UpperAll(code) == code;
    }
  }

  /** Two inputs get the same code exactly when they agree up to case and padding. */
  lemma CanonicalSame(v: string, w: string)
    requires Canonical(v) != ""
    ensures Canonical(v) == Canonical(w) <==> SameUpToCase(Trim(v), Trim(w))
  {
    CodeUpToCase(Trim(v));
    CodeUpToCase(Trim(w));
  }

  /** Blank padding and the case of the letters are irrelevant to the code. */
  lemma CanonicalPadCase(left: string, v: string, w: string, right: string)
    requires AllBlank(left) && AllBlank(right) && SameUpToCase(v, w)
    ensures Canonical(left + w + right) == Canonical(v)
  {
    TrimPad(left, w, right);
    TrimUpper(v);
    TrimUpper(w);
    CodeUpToCase(Trim(v));
    CodeUpToCase(Trim(w));
  }
}
