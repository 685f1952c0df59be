/** Nationality strings and their canonical ISO 3166-1 alpha-2 form. */
module Nationality {
  import opened AsciiText

  predicate IsValid(value: string) {
    |value| == 2 && IsAlpha(value[0]) && IsAlpha(value[1])
  }

  /** A stored code: two upper-case letters. */
  predicate IsCanonical(code: string) {
    |code| == 2 && IsUpper(code[0]) && IsUpper(code[1])
  }

  function Normalize(value: string): (code: string)
    ensures code == "" || IsCanonical(code)
    ensures code == "" <==> !IsValid(Trim(value))
  {
    var trimmed := Trim(value);
    if IsValid(trimmed) then [Upper(trimmed[0]), Upper(trimmed[1])] else ""
  }

  /** Which inputs have a code, and the code letter by letter. */
  lemma NormalizeLetters(value: string)
    ensures var t, code := Trim(value), Normalize(value);
            && (code != "" <==> |t| == 2 && forall i :: 0 <= i < 2 ==> 'a' <= t[i] <= 'z' || 'A' <= t[i] <= 'Z')
            && (code != "" ==>
                  && |code| == 2
                  && forall i :: 0 <= i < 2 ==>
                       if 'a' <= t[i] <= 'z' then code[i] as int - 'A' as int == t[i] as int - 'a' as int else code[i] == t[i])
  {
    var t := Trim(value);
    if |t| == 2 && forall i :: 0 <= i < 2 ==> 'a' <= t[i] <= 'z' || 'A' <= t[i] <= 'Z' {
      assert IsAlpha(t[0]) && IsAlpha(t[1]);
    }
  }

  /** A canonical code is its own normal form, so normalising twice changes nothing. */
  lemma NormalizeIdempotent(value: string)
    ensures Normalize(Normalize(value)) == Normalize(value)
  {
    var code := Normalize(value);
    TrimOfTrimmed(code);
  }

  /** Two inputs get the same code exactly when they agree up to case and padding. */
  lemma NormalizeSame(v: string, w: string)
    requires Normalize(v) != ""
    ensures Normalize(v) == Normalize(w) <==> SameUpToCase(Trim(v), Trim(w))
  {
    var s, t := Trim(v), Trim(w);
    if Normalize(v) == Normalize(w) {
      assert UpperAll(s) == Normalize(v) && UpperAll(t) == Normalize(w);
    }
    if SameUpToCase(s, t) {
      assert |UpperAll(s)| == |UpperAll(t)| == 2;
      assert forall i :: 0 <= i < 2 ==> UpperAll(s)[i] == Upper(s[i]) && UpperAll(t)[i] == Upper(t[i]);
      assert IsAlpha(t[0]) && IsAlpha(t[1]) by {
        assert UpperAll(s)[0] == UpperAll(t)[0] && UpperAll(s)[1] == UpperAll(t)[1];
      }
    }
  }

  /** Blank padding and the case of the letters are irrelevant to the code. */
  lemma NormalizePadCase(left: string, v: string, w: string, right: string)
    requires AllBlank(left) && AllBlank(right) && SameUpToCase(v, w)
    ensures Normalize(left + w + right) == Normalize(v)
  {
    TrimPad(left, w, right);
    TrimUpper(v);
    TrimUpper(w);
    if Normalize(v) != "" {
      NormalizeSame(v, w);
    } else if Normalize(w) != "" {
      NormalizeSame(w, v);
    }
  }
}
