/** Birth years anonymised into age-range labels, the advertised label list and
    the validator that accepts a label as a statistics filter. */
module BirthYearBucketer {
  import opened Wrappers
  import opened Decimal

  function Label(start: nat, end: nat): string {
    Print(start) + "-" + Print(end)
  }

  /** C++ `/` truncates; both operands are non-negative here, so it is Dafny's `/`. */
  function BucketStart(age: nat, bucketSize: int): nat
    requires bucketSize > 0
  {
    MulNonNegative(age / bucketSize, bucketSize);
    age / bucketSize * bucketSize
  }

  function BucketBirthYear(birthYear: int, bucketSize: int, currentYear: int): string {
    if bucketSize <= 0 then ""
    else if birthYear <= 1900 || birthYear > currentYear then ""
    else
      var start := BucketStart(currentYear - birthYear, bucketSize);
      Label(start, start + bucketSize - 1)
  }

  lemma MulNonNegative(x: int, y: int)
    requires x >= 0 && y >= 0
    ensures x * y >= 0
  {
  }

  /** The only facts about multiples that the proofs below need. */
  lemma MulStep(a: int, b: int, n: int)
    requires n > 0
    ensures (a + 1) * n == a * n + n
    ensures a < b ==> a * n + n <= b * n
    ensures a <= b ==> a * n <= b * n
  {
    if a < b {
      assert (b - a - 1) * n >= 0;
    }
  }

  lemma DivBounds(x: int, n: int)
    requires n > 0
    ensures x / n * n <= x < x / n * n + n
  {
  }

  lemma QuotientBetween(x: int, n: int, k: int)
    requires n > 0 && k * n <= x < k * n + n
    ensures x / n == k
  {
    DivBounds(x, n);
    MulStep(x / n, k, n);
    MulStep(k, x / n, n);
  }

  lemma ModZeroIff(x: int, n: int)
    requires n > 0
    ensures x % n == 0 <==> x == x / n * n
  {
  }

  /** Quotients of multiples: (k * n) / n is k and the remainder is 0. */
  lemma MultipleMod(k: int, n: int)
    requires n > 0
    ensures k * n / n == k && k * n % n == 0
  {
    QuotientBetween(k * n, n, k);
    ModZeroIff(k * n, n);
  }

  function FindDash(s: string): (i: nat)
    ensures i <= |s|
    ensures forall j :: 0 <= j < i ==> s[j] != '-'
    ensures i < |s| ==> s[i] == '-'
  {
    if s == [] || s[0] == '-' then 0 else 1 + FindDash(s[1..])
  }

  /** The age_bucket branch of `isValidStatsTagValue`: the range of a label, or
      None when the text is not accepted as a filter value. */
  function ParseLabel(value: string): (r: Option<(nat, nat)>)
    ensures r.Some? ==> r.value.0 <= r.value.1
  {
    var dash := FindDash(value);
    if dash == |value| || dash == 0 || dash + 1 >= |value| then None
    else
      var start, end := value[..dash], value[dash + 1..];
      if AllDigits(start) && AllDigits(end) && ParseNat(start) <= ParseNat(end)
      then Some((ParseNat(start), ParseNat(end)))
      else None
  }

  /** A printed range is accepted by the validator and read back as itself. */
  lemma ParseOfLabel(start: nat, end: nat)
    ensures ParseLabel(Label(start, end)) == if start <= end then Some((start, end)) else None
  {
    var a, b := Print(start), Print(end);
    var s := Label(start, end);
    assert s == a + (['-'] + b);
    assert s[|a|] == '-';
    assert forall i :: 0 <= i < |a| ==> s[i] == a[i] && IsDigit(s[i]);
    assert FindDash(s) == |a|;
    assert s[..|a|] == a && s[|a| + 1..] == b;
    ParsePrintNat(start);
    ParsePrintNat(end);
  }

  lemma LabelInjective(s1: nat, e1: nat, s2: nat, e2: nat)
    requires s1 <= e1 && s2 <= e2 && Label(s1, e1) == Label(s2, e2)
    ensures s1 == s2 && e1 == e2
  {
    ParseOfLabel(s1, e1);
    ParseOfLabel(s2, e2);
  }

  lemma BucketIsLabel(birthYear: int, bucketSize: int, currentYear: int, start: nat)
    requires bucketSize > 0 && 1900 < birthYear <= currentYear
    requires start == BucketStart(currentYear - birthYear, bucketSize)
    ensures BucketBirthYear(birthYear, bucketSize, currentYear) == Label(start, start + bucketSize - 1)
  {
  }

  lemma BucketRange(birthYear: int, bucketSize: int, currentYear: int)
    requires bucketSize > 0 && 1900 < birthYear <= currentYear
    ensures var start := BucketStart(currentYear - birthYear, bucketSize);
            && BucketBirthYear(birthYear, bucketSize, currentYear) != ""
            && ParseLabel(BucketBirthYear(birthYear, bucketSize, currentYear)) == Some((start, start + bucketSize - 1))
  {
    var start := BucketStart(currentYear - birthYear, bucketSize);
    ParseOfLabel(start, start + bucketSize - 1);
    BucketIsLabel(birthYear, bucketSize, currentYear, start);
  }

  /** A range of the configured width, starting at a multiple of it, that holds the age. */
  predicate BucketFor(range: (nat, nat), age: nat, bucketSize: int)
    requires bucketSize > 0
  {
    range.0 <= age <= range.1 && range.1 - range.0 + 1 == bucketSize && range.0 % bucketSize == 0
  }

  lemma BucketStartHoldsAge(age: nat, bucketSize: int)
    requires bucketSize > 0
    ensures BucketFor((BucketStart(age, bucketSize), BucketStart(age, bucketSize) + bucketSize - 1), age, bucketSize)
  {
    DivBounds(age, bucketSize);
    MultipleMod(age / bucketSize, bucketSize);
  }

  /** Which years get a label, and what the label says: it is accepted as a
      filter, and the parsed range has the configured width and holds the age. */
  lemma BucketHoldsAge(birthYear: int, bucketSize: int, currentYear: int)
    ensures BucketBirthYear(birthYear, bucketSize, currentYear) != ""
            <==> bucketSize > 0 && 1900 < birthYear <= currentYear
    ensures BucketBirthYear(birthYear, bucketSize, currentYear) != "" ==>
              var range := ParseLabel(BucketBirthYear(birthYear, bucketSize, currentYear));
              range.Some? && bucketSize > 0 && birthYear <= currentYear
              && BucketFor(range.value, currentYear - birthYear, bucketSize)
  {
    if bucketSize > 0 && 1900 < birthYear <= currentYear {
      BucketStartHoldsAge(currentYear - birthYear, bucketSize);
      BucketRange(birthYear, bucketSize, currentYear);
    }
  }

  /** Two people share a label exactly when their ages have the same quotient. */
  lemma SameBucketIff(y1: int, y2: int, bucketSize: int, currentYear: int)
    requires bucketSize > 0 && 1900 < y1 <= currentYear && 1900 < y2 <= currentYear
    ensures BucketBirthYear(y1, bucketSize, currentYear) == BucketBirthYear(y2, bucketSize, currentYear)
            <==> (currentYear - y1) / bucketSize == (currentYear - y2) / bucketSize
  {
    var k1, k2 := (currentYear - y1) / bucketSize, (currentYear - y2) / bucketSize;
    MulNonNegative(k1, bucketSize);
    MulNonNegative(k2, bucketSize);
    MultipleMod(k1, bucketSize);
    MultipleMod(k2, bucketSize);
    if BucketBirthYear(y1, bucketSize, currentYear) == BucketBirthYear(y2, bucketSize, currentYear) {
      LabelInjective(k1 * bucketSize, k1 * bucketSize + bucketSize - 1,
                     k2 * bucketSize, k2 * bucketSize + bucketSize - 1);
    }
  }

  /** The range advertised at position i: a full bucket, the last one clipped. */
  function Range(i: nat, bucketSize: int, maxAge: int): (r: (nat, nat))
    requires bucketSize > 0 && maxAge >= 0
  {
    MulNonNegative(i, bucketSize);
    var start := i * bucketSize;
    (start, if start + bucketSize - 1 <= maxAge then start + bucketSize - 1 else maxAge)
  }

  method AgeBucketLabels(bucketSize: int, maxAge: int) returns (labels: seq<string>)
    ensures bucketSize <= 0 || maxAge < 0 ==> labels == []
    ensures bucketSize > 0 && maxAge >= 0 ==>
              && |labels| == maxAge / bucketSize + 1
              && forall i :: 0 <= i < |labels| ==>
                   && i * bucketSize <= maxAge
                   && labels[i] == Label(Range(i, bucketSize, maxAge).0, Range(i, bucketSize, maxAge).1)
  {
    labels := [];
    if bucketSize <= 0 || maxAge < 0 {
      return;
    }
    var start := 0;
    while start <= maxAge
      invariant start == |labels| * bucketSize
      invariant |labels| > 0 ==> (|labels| - 1) * bucketSize <= maxAge
      invariant forall i :: 0 <= i < |labels| ==>
                  && i * bucketSize <= maxAge
                  && labels[i] == Label(Range(i, bucketSize, maxAge).0, Range(i, bucketSize, maxAge).1)
      decreases maxAge - start
    {
      var end := if start + bucketSize - 1 < maxAge then start + bucketSize - 1 else maxAge;
      MulNonNegative(|labels|, bucketSize);
      MulStep(|labels|, |labels| + 1, bucketSize);
      labels := labels + [Label(start, end)];
      start := start + bucketSize;
    }
    MulStep(|labels| - 1, |labels|, bucketSize);
    QuotientBetween(maxAge, bucketSize, |labels| - 1);
  }

  /** The advertised ranges cover every age from 0 to maxAge exactly once: age
      lies in the range at position age / bucketSize and in no other. */
  lemma RangesPartitionAges(bucketSize: int, maxAge: int, age: int, i: nat)
    requires bucketSize > 0 && 0 <= age <= maxAge && i <= maxAge / bucketSize
    ensures i * bucketSize <= maxAge
    ensures Range(i, bucketSize, maxAge).0 <= age <= Range(i, bucketSize, maxAge).1 <==> i == age / bucketSize
  {
    DivBounds(maxAge, bucketSize);
    DivBounds(age, bucketSize);
    MulStep(i, maxAge / bucketSize, bucketSize);
    if i * bucketSize <= age < i * bucketSize + bucketSize {
      QuotientBetween(age, bucketSize, i);
    }
  }

  /** Consecutive ranges are contiguous, the first starts at 0, the last ends at maxAge. */
  lemma RangesContiguous(bucketSize: int, maxAge: int, i: nat)
    requires bucketSize > 0 && i <= maxAge / bucketSize && maxAge >= 0
    ensures i * bucketSize <= maxAge
    ensures i == 0 ==> Range(i, bucketSize, maxAge).0 == 0
    ensures i < maxAge / bucketSize ==>
              && (i + 1) * bucketSize <= maxAge
              && Range(i + 1, bucketSize, maxAge).0 == Range(i, bucketSize, maxAge).1 + 1
    ensures i == maxAge / bucketSize ==> Range(i, bucketSize, maxAge).1 == maxAge
  {
    var q := maxAge / bucketSize;
    DivBounds(maxAge, bucketSize);
    MulStep(i, q, bucketSize);
  }

  /** The label advertised for an age, and whether its bucket is not the clipped last one. */
  function AdvertisedLabel(age: nat, bucketSize: int, maxAge: int): string
    requires bucketSize > 0 && age <= maxAge
  {
    var range := Range(age / bucketSize, bucketSize, maxAge);
    Label(range.0, range.1)
  }

  predicate InFullBucket(age: nat, bucketSize: int, maxAge: int)
    requires bucketSize > 0
  {
    age / bucketSize < maxAge / bucketSize || (maxAge + 1) % bucketSize == 0
  }

  lemma LastBucketFull(maxAge: int, bucketSize: int)
    requires bucketSize > 0 && maxAge >= 0
    ensures (maxAge + 1) % bucketSize == 0 <==> maxAge + 1 == maxAge / bucketSize * bucketSize + bucketSize
  {
    var q, k := maxAge / bucketSize, (maxAge + 1) / bucketSize;
    ModZeroIff(maxAge + 1, bucketSize);
    DivBounds(maxAge, bucketSize);
    DivBounds(maxAge + 1, bucketSize);
    MulStep(k, q, bucketSize);
    MulStep(q, k, bucketSize);
    MulStep(q + 1, k, bucketSize);
    MulStep(k, q + 1, bucketSize);
  }

  /** The header promises that the advertised labels mirror `bucketBirthYear`
      exactly. The advertised label for an age is the label a person of that
      age gets if and only if the bucket is not the clipped last one. */
  lemma AdvertisedLabelIff(birthYear: int, bucketSize: int, currentYear: int, maxAge: int)
    requires bucketSize > 0 && 1900 < birthYear <= currentYear && currentYear - birthYear <= maxAge
    ensures var i := (currentYear - birthYear) / bucketSize;
            Label(Range(i, bucketSize, maxAge).0, Range(i, bucketSize, maxAge).1)
            == BucketBirthYear(birthYear, bucketSize, currentYear)
            <==> i < maxAge / bucketSize || (maxAge + 1) % bucketSize == 0
  {
    var age := currentYear - birthYear;
    var i, q := age / bucketSize, maxAge / bucketSize;
    MulNonNegative(i, bucketSize);
    DivBounds(age, bucketSize);
    DivBounds(maxAge, bucketSize);
    MulStep(q, i, bucketSize);
    MulStep(i, q, bucketSize);
    LastBucketFull(maxAge, bucketSize);
    var start := i * bucketSize;
    var r := Range(i, bucketSize, maxAge);
    if Label(r.0, r.1) == Label(start, start + bucketSize - 1) {
      LabelInjective(r.0, r.1, start, start + bucketSize - 1);
    }
  }

  lemma AdvertisedIff(birthYear: int, bucketSize: int, currentYear: int, maxAge: int)
    requires bucketSize > 0 && 1900 < birthYear <= currentYear && currentYear - birthYear <= maxAge
    ensures AdvertisedLabel(currentYear - birthYear, bucketSize, maxAge) == BucketBirthYear(birthYear, bucketSize, currentYear)
            <==> InFullBucket(currentYear - birthYear, bucketSize, maxAge)
  {
    AdvertisedLabelIff(birthYear, bucketSize, currentYear, maxAge);
  }

  const DEFAULT_MAX_AGE := 119

  /** A concrete case the header's promise misses, with the default maximum that the
      only caller uses: width 7, age 119. */
  lemma ClippedLabelDiffers()
    ensures BucketBirthYear(1906, 7, 2025) != Label(Range(17, 7, DEFAULT_MAX_AGE).0, Range(17, 7, DEFAULT_MAX_AGE).1)
  {
    AdvertisedLabelIff(1906, 7, 2025, DEFAULT_MAX_AGE);
  }
}
