/**
  The GC calculator `calculate_gc_content`: upper-case the sequence, count its
  `G`s and `C`s, and return that count as a percentage of the length, or 0 for
  the empty sequence. The alphabet is not checked here: any other character
  adds to the length and not to the count. The percentage is an exact `real`.
 */
module GcCalculator {
  import opened AsciiText

  /** A guanine or cytosine base, in either case. */
  predicate IsGcBase(c: char) {
    c == 'G' || c == 'C' || c == 'g' || c == 'c'
  }

  /** `s.count(c)` for a single character `c`. */
  function Count(s: string, c: char): (n: nat)
    ensures n <= |s|
  {
    if s == [] then 0
    else (if s[0] == c then 1 else 0) + Count(s[1..], c)
  }

  /** The number of G/C bases: `count('G') + count('C')` of the upper-cased
      sequence. */
  function GcCount(s: string): (n: nat)
    ensures n <= |s|
  {
    var u := Upper(s);
    CountPairBound(u, 'G', 'C');
    Count(u, 'G') + Count(u, 'C')
  }

  /** `calculate_gc_content`: the G/C share of the sequence, in percent, with
      0 for the empty sequence instead of a division by zero. */
  function GcContent(s: string): (pct: real)
    ensures 0.0 <= pct <= 100.0
    ensures s == [] ==> pct == 0.0
  {
    var total := |Upper(s)|;
    var gc := GcCount(s);
    if total > 0 then
      PercentBounds(gc, total);
      Percent(gc, total)
    else 0.0
  }

  /** `(part / whole) * 100` with exact division. */
  function Percent(part: nat, whole: nat): real
    requires 0 < whole
  {
    (part as real / whole as real) * 100.0
  }

  /** The percentage scales back to the part, and lies in [0, 100] when the
      part does not exceed the whole. */
  lemma PercentBounds(part: nat, whole: nat)
    requires 0 < whole
    ensures Percent(part, whole) * (whole as real) == 100.0 * (part as real)
    ensures part <= whole ==> 0.0 <= Percent(part, whole) <= 100.0
    ensures Percent(part, whole) == 100.0 <==> part == whole
    ensures Percent(part, whole) == 0.0 <==> part == 0
  {
    var q := part as real / whole as real;
    assert q * (whole as real) == part as real;
    assert 0.0 <= q;
    assert (1.0 - q) * (whole as real) == (whole as real) - (part as real);
    assert q == 1.0 <==> part == whole;
  }

  /** Two different characters together occur at most `|s|` times, and
      exactly `|s|` times when every character is one of them. */
  lemma {:induction false} CountPairBound(s: string, a: char, b: char)
    requires a != b
    ensures Count(s, a) + Count(s, b) <= |s|
    ensures Count(s, a) + Count(s, b) == |s| <==> forall i | 0 <= i < |s| :: s[i] == a || s[i] == b
    ensures Count(s, a) + Count(s, b) == 0 <==> forall i | 0 <= i < |s| :: s[i] != a && s[i] != b
  {
    if s != [] {
      CountPairBound(s[1..], a, b);
      assert forall i | 1 <= i < |s| :: s[i] == s[1..][i - 1];
    }
  }

  /** `count` agrees with the multiplicity in the multiset of characters. */
  lemma {:induction false} CountIsMultiplicity(s: string, c: char)
    ensures Count(s, c) == multiset(s)[c]
  {
    if s != [] {
      assert s == [s[0]] + s[1..];
      CountIsMultiplicity(s[1..], c);
    }
  }

  /** Counting a letter after upper-casing counts both of its cases. */
  lemma {:induction false} CountUpper(s: string, c: char)
    requires 'A' <= c <= 'Z'
    ensures Count(Upper(s), c) == multiset(s)[c] + multiset(s)[(c as int + 32) as char]
  {
    if s != [] {
      assert s == [s[0]] + s[1..];
      assert Upper(s)[1..] == Upper(s[1..]);
      CountUpper(s[1..], c);
    }
  }

  /** The G/C count is the number of `G`, `g`, `C` and `c` characters of the
      original (not upper-cased) sequence. */
  lemma GcCountCaseInsensitive(s: string)
    ensures GcCount(s) == multiset(s)['G'] + multiset(s)['g'] + multiset(s)['C'] + multiset(s)['c']
  {
    CountUpper(s, 'G');
    CountUpper(s, 'C');
  }

  /** For a non-empty sequence the result is 100 times the number of G/C
      bases, in either case, divided by the length. */
  lemma GcContentFormula(s: string)
    requires s != []
    ensures GcContent(s) * (|s| as real) ==
      100.0 * (multiset(s)['G'] + multiset(s)['g'] + multiset(s)['C'] + multiset(s)['c']) as real
  {
    assert GcContent(s) == Percent(GcCount(s), |s|);
    PercentBounds(GcCount(s), |s|);
    GcCountCaseInsensitive(s);
  }

  /** Upper-casing the input first does not change the result. */
  lemma GcContentOfUpper(s: string)
    ensures GcContent(Upper(s)) == GcContent(s)
  {
    UpperIdempotent(s);
  }

  /** Two sequences that agree up to case have the same GC content. */
  lemma GcContentIgnoresCase(s: string, t: string)
    requires |s| == |t|
    requires forall i | 0 <= i < |s| :: UpperChar(s[i]) == UpperChar(t[i])
    ensures GcContent(s) == GcContent(t)
  {
    assert Upper(s) == Upper(t);
  }

  /** Every character is counted exactly when it is a G/C base. */
  lemma {:induction false} GcCountAll(s: string)
    ensures GcCount(s) == |s| <==> forall i | 0 <= i < |s| :: IsGcBase(s[i])
    ensures GcCount(s) == 0 <==> forall i | 0 <= i < |s| :: !IsGcBase(s[i])
  {
    var u := Upper(s);
    CountPairBound(u, 'G', 'C');
    assert forall i | 0 <= i < |s| :: (u[i] == 'G' || u[i] == 'C') == IsGcBase(s[i]);
  }

  /** The result is 100 exactly for a non-empty all-G/C sequence. */
  lemma GcContentIsHundred(s: string)
    ensures GcContent(s) == 100.0 <==> s != [] && forall i | 0 <= i < |s| :: IsGcBase(s[i])
  {
    if s != [] {
      assert GcContent(s) == Percent(GcCount(s), |s|);
      PercentBounds(GcCount(s), |s|);
    }
    GcCountAll(s);
  }

  /** The result is 0 exactly when no character is a G/C base (the empty
      sequence included). */
  lemma GcContentIsZero(s: string)
    ensures GcContent(s) == 0.0 <==> forall i | 0 <= i < |s| :: !IsGcBase(s[i])
  {
    if s != [] {
      assert GcContent(s) == Percent(GcCount(s), |s|);
      PercentBounds(GcCount(s), |s|);
    }
    GcCountAll(s);
  }

  /** The documented value for an all-G/C sequence: 100. */
  lemma AllGcExample()
    ensures GcContent("GCGC") == 100.0
  {
    UpperFixesUpperCase("GCGC");
    assert "GCGC"[1..] == "CGC" && "CGC"[1..] == "GC" && "GC"[1..] == "C";
    assert Count("GC", 'G') == 1 && Count("GC", 'C') == 1;
    assert GcCount("GCGC") == 4;
    assert GcContent("GCGC") == Percent(4, 4) == 100.0;
  }

  /** The documented value for a lower-case all-A/T sequence: 0. */
  lemma AllAtExample()
    ensures GcContent("atat") == 0.0
  {
    assert Upper("atat") == "ATAT";
    assert "ATAT"[1..] == "TAT" && "TAT"[1..] == "AT" && "AT"[1..] == "T";
    assert Count("AT", 'G') == 0 && Count("AT", 'C') == 0;
    assert GcCount("atat") == 0;
  }

  /** The documented value for one base of each kind: 50. */
  lemma HalfExample()
    ensures GcContent("ACGT") == 50.0
  {
    UpperFixesUpperCase("ACGT");
    assert "ACGT"[1..] == "CGT" && "CGT"[1..] == "GT" && "GT"[1..] == "T";
    assert Count("GT", 'G') == 1 && Count("GT", 'C') == 0;
    assert GcCount("ACGT") == 2;
    assert GcContent("ACGT") == Percent(2, 4) == 50.0;
  }
}
