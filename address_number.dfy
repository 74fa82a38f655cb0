/** The street-number part of the address normaliser: the range pattern
    `ADDRESS_NUMBER_RE` and `_normalize_address_number`.

    The pattern is `(?P<start>[0-9]+)\s?[\\/-]?\s?(?<=[\s\\/-])(?P<end>[0-9]+)`,
    applied with `re.match`: anchored at the start of the text, with whatever
    follows the end group ignored. */
module AddressNumber {
  import opened Wrappers
  import opened Strings

  predicate IsSep(c: char) { c == '\\' || c == '/' || c == '-' }

  /** The length of the run of digits of `s` that begins at index `i`. */
  function DigitRun(s: string, i: nat): (n: nat)
    requires i <= |s|
    ensures i + n <= |s|
    ensures forall k | i <= k < i + n :: IsDigit(s[k])
    ensures i + n == |s| || !IsDigit(s[i + n])
    decreases |s| - i
  {
    if i < |s| && IsDigit(s[i]) then 1 + DigitRun(s, i + 1) else 0
  }

  // ---------------------------------------------------------------------------
  // The language of the pattern, stated declaratively

  /** `g` is matched by `\s?`. */
  predicate OptSpace(g: string) { g == [] || (|g| == 1 && IsSpace(g[0])) }

  /** `g` is matched by `[\\/-]?`. */
  predicate OptSep(g: string) { g == [] || (|g| == 1 && IsSep(g[0])) }

  /** `g` is matched by `\s?[\\/-]?\s?`. */
  ghost predicate GapMatches(g: string) {
    exists i, j | 0 <= i <= j <= |g| :: OptSpace(g[..i]) && OptSep(g[i..j]) && OptSpace(g[j..])
  }

  /** The lookbehind `(?<=[\s\\/-])`: the character just before index `q` is
      whitespace or a separator. */
  predicate LookbehindHolds(s: string, q: nat) {
    0 < q <= |s| && (IsSpace(s[q - 1]) || IsSep(s[q - 1]))
  }

  /** The pattern matches the prefix `s[..e]` of `s`, with the start group
      `s[..p]`, the gap `s[p..q]` and the end group `s[q..e]`. */
  ghost predicate PatternMatchesAt(s: string, p: nat, q: nat, e: nat) {
    && 0 < p <= q < e <= |s|
    && (forall k | 0 <= k < p :: IsDigit(s[k]))
    && GapMatches(s[p..q])
    && LookbehindHolds(s, q)
    && (forall k | q <= k < e :: IsDigit(s[k]))
  }

  // ---------------------------------------------------------------------------
  // The matcher

  datatype RangeMatch = RangeMatch(start: string, gap: string, end: string)

  /** 1 when `s[i]` is whitespace, else 0: what a greedy `\s?` consumes at `i`. */
  function SpaceAt(s: string, i: nat): nat { if i < |s| && IsSpace(s[i]) then 1 else 0 }

  /** What a greedy `[\\/-]?` consumes at `i`. */
  function SepAt(s: string, i: nat): nat { if i < |s| && IsSep(s[i]) then 1 else 0 }

  /** Where a greedy `\s?[\\/-]?\s?` starting at `p` stops. */
  function GapEnd(s: string, p: nat): nat {
    var a := SpaceAt(s, p);
    var b := SepAt(s, p + a);
    p + a + b + SpaceAt(s, p + a + b)
  }

  /** `ADDRESS_NUMBER_RE.match(s)`. The gap between the two digit runs can never
      hold a digit, so at most one position can begin the end group, and trying
      each optional piece greedily finds the match the backtracking engine finds
      (`MatchRangeSound`, `MatchRangeComplete`). The end group is as long as the
      digits allow. */
  function MatchRange(s: string): Option<RangeMatch> {
    var p := StartStop(s);
    var q := GapStop(s);
    if p == 0 || q == p || q >= |s| || !IsDigit(s[q]) then None
    else Some(RangeMatch(s[..p], s[p..q], s[q..EndStop(s)]))
  }

  /** Where the start group, the gap and the end group stop, scanning greedily. */
  function StartStop(s: string): nat { DigitRun(s, 0) }

  function GapStop(s: string): nat { GapEnd(s, StartStop(s)) }

  function EndStop(s: string): nat
    requires GapStop(s) <= |s|
  {
    GapStop(s) + DigitRun(s, GapStop(s))
  }

  /** What `MatchRange` reports is a match of the pattern, with the longest
      end group. */
  lemma MatchRangeSound(s: string)
    requires MatchRange(s).Some?
    ensures PatternMatchesAt(s, StartStop(s), GapStop(s), EndStop(s))
    ensures EndStop(s) == |s| || !IsDigit(s[EndStop(s)])
    ensures MatchRange(s) == Some(RangeMatch(s[..StartStop(s)], s[StartStop(s)..GapStop(s)], s[GapStop(s)..EndStop(s)]))
  {
    GreedyGapMatches(s, DigitRun(s, 0));
  }

  /** The text a greedy scan of the gap consumes is accepted by `\s?[\\/-]?\s?`,
      and when it is not empty its last character satisfies the lookbehind. */
  lemma GreedyGapMatches(s: string, p: nat)
    requires p <= |s|
    ensures p <= GapEnd(s, p) <= |s|
    ensures GapMatches(s[p..GapEnd(s, p)])
    ensures GapEnd(s, p) > p ==> LookbehindHolds(s, GapEnd(s, p))
  {
    var a := SpaceAt(s, p);
    var b := SepAt(s, p + a);
    var c := SpaceAt(s, p + a + b);
    var q := p + a + b + c;
    var g := s[p..q];
    assert |g| == a + b + c;
    assert a == 1 ==> g[..a] == [s[p]];
    assert b == 1 ==> g[a..a + b] == [s[p + a]];
    assert c == 1 ==> g[a + b..] == [s[p + a + b]];
    assert a == 0 ==> g[..a] == [];
    assert b == 0 ==> g[a..a + b] == [];
    assert c == 0 ==> g[a + b..] == [];
    assert OptSpace(g[..a]) && OptSep(g[a..a + b]) && OptSpace(g[a + b..]);
  }

  lemma GapShape(g: string) returns (i: nat, j: nat)
    requires GapMatches(g)
    ensures 0 <= i <= j <= |g| && OptSpace(g[..i]) && OptSep(g[i..j]) && OptSpace(g[j..])
  {
    i, j :| 0 <= i <= j <= |g| && OptSpace(g[..i]) && OptSep(g[i..j]) && OptSpace(g[j..]);
  }

  /** The pieces of an accepted gap, as characters of the text it lies in. */
  lemma GapPieces(s: string, p: nat, q: nat) returns (i: nat, j: nat)
    requires p <= q <= |s| && GapMatches(s[p..q])
    ensures i <= 1 && j - i <= 1 && q - p - j <= 1 && i <= j <= q - p
    ensures i == 1 ==> IsSpace(s[p])
    ensures j == i + 1 ==> IsSep(s[p + i])
    ensures q - p == j + 1 ==> IsSpace(s[p + j])
  {
    var g := s[p..q];
    i, j := GapShape(g);
    assert forall k | 0 <= k < |g| :: s[p + k] == g[k];
    if i == 1 {
      assert g[..i][0] == g[0];
    }
    if j == i + 1 {
      assert g[i..j][0] == g[i];
    }
    if |g| == j + 1 {
      assert g[j..][0] == g[j];
    }
  }

  /** A greedy scan of a gap that the pattern accepts stops at the gap's end,
      provided a digit follows it. */
  lemma GreedyGap(s: string, p: nat, q: nat)
    requires p <= q < |s| && GapMatches(s[p..q]) && IsDigit(s[q])
    ensures GapEnd(s, p) == q
  {
    var i, j := GapPieces(s, p, q);
    var n := q - p;
    assert !IsSpace(s[q]) && !IsSep(s[q]);
    if i == 1 {
      assert SpaceAt(s, p) == 1;
      if j == 2 {
        assert SepAt(s, p + 1) == 1;
        assert SpaceAt(s, p + 2) == n - 2;
      } else {
        assert SepAt(s, p + 1) == 0;
        assert SpaceAt(s, p + 1) == n - 1;
      }
    } else if j == 1 {
      assert SpaceAt(s, p) == 0 && SepAt(s, p) == 1;
      assert SpaceAt(s, p + 1) == n - 1;
    } else if n == 1 {
      assert SpaceAt(s, p) == 1 && SepAt(s, p + 1) == 0 && SpaceAt(s, p + 1) == 0;
    } else {
      assert SpaceAt(s, p) == 0 && SepAt(s, p) == 0;
    }
  }

  /** Whenever the pattern matches, `MatchRange` finds the same start group and
      the same gap, and an end group that extends the given one as far as the
      digits go. */
  lemma MatchRangeComplete(s: string, p: nat, q: nat, e: nat)
    requires PatternMatchesAt(s, p, q, e)
    ensures DigitRun(s, 0) == p && GapEnd(s, p) == q && q + DigitRun(s, q) >= e
    ensures MatchRange(s) == Some(RangeMatch(s[..p], s[p..q], s[q..q + DigitRun(s, q)]))
  {
    StopsAt(s, p, q, e);
    MatchAtStops(s, p, q);
  }

  /** The greedy scan stops where a match of the pattern puts its groups. */
  lemma StopsAt(s: string, p: nat, q: nat, e: nat)
    requires PatternMatchesAt(s, p, q, e)
    ensures p < q && StartStop(s) == p && GapStop(s) == q
  {
    assert p < q by { assert IsDigit(s[p - 1]); }
    assert !IsDigit(s[p]) by { assert s[p] == s[p..q][0]; }
    DigitRunIs(s, 0, p);
    GreedyGap(s, p, q);
  }

  /** Once the start group and the gap are known, the match is determined. */
  lemma MatchAtStops(s: string, p: nat, q: nat)
    requires 0 < p < q < |s| && IsDigit(s[q])
    requires StartStop(s) == p && GapStop(s) == q
    ensures MatchRange(s) == Some(RangeMatch(s[..p], s[p..q], s[q..q + DigitRun(s, q)]))
  {
    var n := DigitRun(s, q);
    assert EndStop(s) == q + n;
  }

  lemma DigitRunIs(s: string, i: nat, n: nat)
    requires i + n <= |s|
    requires forall k | i <= k < i + n :: IsDigit(s[k])
    requires i + n == |s| || !IsDigit(s[i + n])
    ensures DigitRun(s, i) == n
    decreases n
  {
    if n > 0 {
      DigitRunIs(s, i + 1, n - 1);
    }
  }

  /** A run of digits alone is never a range. */
  lemma DigitsAloneNoRange(s: string)
    requires AllDigits(s)
    ensures MatchRange(s) == None
  {
    assert forall k | 0 <= k < |s| :: s[k] in s;
    DigitRunIs(s, 0, |s|);
  }

  // ---------------------------------------------------------------------------
  // _normalize_address_number

  /** The end of a range written with a shortened end (`123-25`) gets back the
      leading digits of the start. */
  function RestoreEnd(lo: string, hi: string): string {
    if |hi| < |lo| then lo[..|lo| - |hi|] + hi else hi
  }

  /** `_normalize_address_number`: a range becomes `start-end` with leading zeros
      stripped from both halves and a shortened end restored from the start;
      anything else only loses its leading zeros. */
  function NormalizeNumber(s: string): string {
    match MatchRange(s)
    case Some(m) =>
      var lo := TrimLeading(m.start, '0');
      lo + "-" + RestoreEnd(lo, TrimLeading(m.end, '0'))
    case None => TrimLeading(s, '0')
  }

  /** No leading `'0'`: what `lstrip("0")` guarantees. */
  predicate NoLeadingZero(s: string) { s == [] || s[0] != '0' }

  /** `r` is the range `lo-e`: the end `e` is as long as the longer of `lo` and
      `hi`, ends in `hi`, takes its other leading digits from `lo`, and neither
      half is a digit string with a leading zero. */
  ghost predicate RangeForm(lo: string, hi: string, r: string) {
    && |r| > |lo| && r[..|lo|] == lo && r[|lo|] == '-'
    && var e := r[|lo| + 1..];
    && |e| == (if |lo| > |hi| then |lo| else |hi|)
    && e[|e| - |hi|..] == hi
    && e[..|e| - |hi|] == lo[..|e| - |hi|]
    && AllDigits(lo) && AllDigits(e)
    && NoLeadingZero(lo) && NoLeadingZero(e)
  }

  /** For a range, the result joins the start and the end, both without
      leading zeros, by one `-`, with a shortened end restored from the start. */
  lemma RangeNormalized(s: string)
    requires MatchRange(s).Some?
    ensures RangeForm(TrimLeading(MatchRange(s).value.start, '0'),
                      TrimLeading(MatchRange(s).value.end, '0'),
                      NormalizeNumber(s))
  {
    var m := MatchRange(s).value;
    var lo := TrimLeading(m.start, '0');
    var hi := TrimLeading(m.end, '0');
    GroupsAreDigits(s);
    SuffixDigits(m.start, lo);
    SuffixDigits(m.end, hi);
    RestoredRange(lo, hi);
  }

  /** Joining two trimmed digit groups, with the end restored, gives the range
      form. */
  lemma RestoredRange(lo: string, hi: string)
    requires AllDigits(lo) && AllDigits(hi) && NoLeadingZero(lo) && NoLeadingZero(hi)
    ensures RangeForm(lo, hi, lo + "-" + RestoreEnd(lo, hi))
  {
    RestoreEndShape(lo, hi);
    var e := RestoreEnd(lo, hi);
    JoinForm(lo, hi, e, lo + "-" + e);
  }

  lemma JoinForm(lo: string, hi: string, e: string, r: string)
    requires r == lo + "-" + e
    requires |e| == (if |lo| > |hi| then |lo| else |hi|)
    requires e[|e| - |hi|..] == hi
    requires e[..|e| - |hi|] == lo[..|e| - |hi|]
    requires AllDigits(lo) && AllDigits(e) && NoLeadingZero(lo) && NoLeadingZero(e)
    ensures RangeForm(lo, hi, r)
  {
    assert |r| == |lo| + 1 + |e| && r[|lo|] == '-';
    assert r[..|lo|] == lo && r[|lo| + 1..] == e;
  }

  lemma GroupsAreDigits(s: string)
    requires MatchRange(s).Some?
    ensures AllDigits(MatchRange(s).value.start) && AllDigits(MatchRange(s).value.end)
  {
    MatchRangeSound(s);
    var m := MatchRange(s).value;
    assert AllDigits(m.start) by {
      forall c | c in m.start ensures IsDigit(c) {
        var k :| 0 <= k < |m.start| && m.start[k] == c;
        assert c == s[k];
      }
    }
    assert AllDigits(m.end) by {
      forall c | c in m.end ensures IsDigit(c) {
        var k :| 0 <= k < |m.end| && m.end[k] == c;
        assert c == s[GapStop(s) + k];
      }
    }
  }
  lemma SuffixDigits(s: string, t: string)
    requires AllDigits(s) && |t| <= |s| && t == s[|s| - |t|..]
    ensures AllDigits(t)
  {
    forall c | c in t ensures IsDigit(c) {
      var k :| 0 <= k < |t| && t[k] == c;
      assert c == s[|s| - |t| + k] && s[|s| - |t| + k] in s;
    }
  }

  lemma RestoreEndShape(lo: string, hi: string)
    requires AllDigits(lo) && AllDigits(hi) && NoLeadingZero(lo) && NoLeadingZero(hi)
    ensures var e := RestoreEnd(lo, hi);
            && |e| == (if |lo| > |hi| then |lo| else |hi|)
            && e[|e| - |hi|..] == hi
            && e[..|e| - |hi|] == lo[..|e| - |hi|]
            && AllDigits(e) && NoLeadingZero(e)
  {
    if |hi| < |lo| {
      var e := lo[..|lo| - |hi|] + hi;
      assert e[|e| - |hi|..] == hi;
      assert e[..|e| - |hi|] == lo[..|e| - |hi|];
      assert e[0] == lo[0];
      forall c | c in e ensures IsDigit(c) {
        if c in lo[..|lo| - |hi|] {
          var k :| 0 <= k < |lo| - |hi| && lo[..|lo| - |hi|][k] == c;
          assert lo[k] in lo;
        }
      }
    }
  }

  /** For anything that is not a range, the result is the input with its
      leading zeros removed. */
  lemma NonRangeNormalized(s: string)
    requires MatchRange(s).None?
    ensures var r := NormalizeNumber(s);
            && NoLeadingZero(r)
            && |r| <= |s| && s[|s| - |r|..] == r
            && forall i | 0 <= i < |s| - |r| :: s[i] == '0'
  {
  }

  /** Normalising a street number twice gives what normalising it once gives. */
  lemma NormalizeNumberIdempotent(s: string)
    ensures NormalizeNumber(NormalizeNumber(s)) == NormalizeNumber(s)
  {
    if MatchRange(s).Some? {
      RangeIdempotent(s);
    } else {
      NonRangeNormalized(s);
      StrippedStaysNonRange(s, NormalizeNumber(s));
    }
  }

  lemma RangeIdempotent(s: string)
    requires MatchRange(s).Some?
    ensures NormalizeNumber(NormalizeNumber(s)) == NormalizeNumber(s)
  {
    var r := NormalizeNumber(s);
    var lo := TrimLeading(MatchRange(s).value.start, '0');
    var hi := TrimLeading(MatchRange(s).value.end, '0');
    RangeNormalized(s);
    assert RangeForm(lo, hi, r);
    var e := r[|lo| + 1..];
    assert r == lo + "-" + e by {
      assert r == r[..|lo|] + [r[|lo|]] + r[|lo| + 1..];
    }
    NormalizedRangeIsFixed(lo, e);
  }

  /** A range already in normal form normalises to itself. */
  lemma NormalizedRangeIsFixed(lo: string, e: string)
    requires AllDigits(lo) && AllDigits(e) && NoLeadingZero(lo) && NoLeadingZero(e)
    requires |e| >= |lo|
    ensures NormalizeNumber(lo + "-" + e) == lo + "-" + e
  {
    var r := lo + "-" + e;
    if lo == [] {
      assert r[0] == '-';
      assert StartStop(r) == 0;
      NoZerosToTrim(r);
    } else {
      FixedRangeNormalized(lo, e);
      NoZerosToTrim(lo);
      NoZerosToTrim(e);
    }
  }

  lemma MatchFixed(lo: string, e: string)
    requires AllDigits(lo) && AllDigits(e) && lo != [] && e != []
    ensures MatchRange(lo + "-" + e) == Some(RangeMatch(lo, "-", e))
  {
    SingleGapRange(lo, "-", e);
  }

  /** Two digit runs joined by one space or one separator form a range, and the
      matcher finds exactly those groups. */
  lemma SingleGapRange(lo: string, g: string, e: string)
    requires AllDigits(lo) && AllDigits(e) && lo != [] && e != []
    requires |g| == 1 && (IsSpace(g[0]) || IsSep(g[0]))
    ensures MatchRange(lo + g + e) == Some(RangeMatch(lo, g, e))
  {
    var r := lo + g + e;
    var p, q := |lo|, |lo| + 1;
    SingleGapPattern(lo, g, e);
    MatchRangeComplete(r, p, q, |r|);
    assert q + DigitRun(r, q) == |r|;
    JoinSlices(lo, g, e);
    assert r[q..q + DigitRun(r, q)] == e;
  }

  /** The three pieces of a concatenation, sliced back out. */
  lemma JoinSlices(lo: string, g: string, e: string)
    ensures var r := lo + g + e;
            r[..|lo|] == lo && r[|lo|..|lo| + |g|] == g && r[|lo| + |g|..|r|] == e
  {
  }

  lemma SingleGapPattern(lo: string, g: string, e: string)
    requires AllDigits(lo) && AllDigits(e) && lo != [] && e != []
    requires |g| == 1 && (IsSpace(g[0]) || IsSep(g[0]))
    ensures PatternMatchesAt(lo + g + e, |lo|, |lo| + 1, |lo| + 1 + |e|)
  {
    var r := lo + g + e;
    var p, q := |lo|, |lo| + 1;
    assert r[p..q] == g;
    if IsSpace(g[0]) {
      OneGap(g, 1, 1);
    } else {
      OneGap(g, 0, 1);
    }
    forall k | 0 <= k < p
      ensures IsDigit(r[k])
    {
      assert r[k] == lo[k] && lo[k] in lo;
    }
    forall k | q <= k < |r|
      ensures IsDigit(r[k])
    {
      assert r[k] == e[k - q] && e[k - q] in e;
    }
    assert r[q - 1] == g[0];
  }

  /** A gap split into the three optional pieces at `i` and `j` is accepted. */
  lemma OneGap(g: string, i: nat, j: nat)
    requires i <= j <= |g| && OptSpace(g[..i]) && OptSep(g[i..j]) && OptSpace(g[j..])
    ensures GapMatches(g)
  {
  }

  /** Stripping leading zeros never turns a non-range into a range: the same
      groups would match the unstripped text, with a longer start. */
  lemma StrippedStaysNonRange(s: string, r: string)
    requires MatchRange(s).None?
    requires |r| <= |s| && s[|s| - |r|..] == r
    requires forall i | 0 <= i < |s| - |r| :: s[i] == '0'
    requires NoLeadingZero(r)
    ensures NormalizeNumber(r) == r
  {
    ZerosKeepMatch(s, r);
  }

  /** A text that matches the pattern still matches with zeros put in front. */
  lemma ZerosKeepMatch(s: string, r: string)
    requires |r| <= |s| && s[|s| - |r|..] == r
    requires forall i | 0 <= i < |s| - |r| :: s[i] == '0'
    ensures MatchRange(r).Some? ==> MatchRange(s).Some?
  {
    if MatchRange(r).Some? {
      MatchRangeSound(r);
      ZerosBeforeSome(s, r, |s| - |r|, StartStop(r), GapStop(r), EndStop(r));
    }
  }

  /** Zeros put in front of a text that matches the pattern keep it matched. */
  lemma ZerosBeforeSome(s: string, r: string, z: nat, p: nat, q: nat, e: nat)
    requires z == |s| - |r| && s[z..] == r
    requires forall i | 0 <= i < z :: s[i] == '0'
    requires PatternMatchesAt(r, p, q, e)
    ensures MatchRange(s).Some?
  {
    ZerosBeforeMatch(s, r, z, p, q, e);
    MatchRangeComplete(s, z + p, z + q, z + e);
  }

  /** Zeros put in front of a text that matches the pattern lengthen its start
      group and leave the gap and the end group as they were. */
  lemma ZerosBeforeMatch(s: string, r: string, z: nat, p: nat, q: nat, e: nat)
    requires z == |s| - |r| && s[z..] == r
    requires forall i | 0 <= i < z :: s[i] == '0'
    requires PatternMatchesAt(r, p, q, e)
    ensures PatternMatchesAt(s, z + p, z + q, z + e)
  {
    assert forall k | z <= k < |s| :: s[k] == r[k - z];
    assert s[z + p..z + q] == r[p..q];
    assert forall k | 0 <= k < z + p :: IsDigit(s[k]) by {
      forall k | 0 <= k < z + p
        ensures IsDigit(s[k])
      {
        if k >= z {
          assert s[k] == r[k - z];
        }
      }
    }
    assert s[z + q - 1] == r[q - 1];
  }

  // ---------------------------------------------------------------------------
  // Examples from the docstring

  /** A range whose end is written shorter than its start gets the start's
      leading digits back: `lo-hi` becomes `lo-` followed by the first digits of
      `lo` and then `hi`. */
  lemma ShortenedEndRestored(lo: string, hi: string)
    requires AllDigits(lo) && AllDigits(hi) && NoLeadingZero(lo) && NoLeadingZero(hi)
    requires 0 < |hi| < |lo|
    ensures NormalizeNumber(lo + "-" + hi) == lo + "-" + lo[..|lo| - |hi|] + hi
  {
    MatchFixed(lo, hi);
  }

  lemma ExampleShortenedRange()
    ensures NormalizeNumber("123-25") == "123-125"
  {
    assert "123" + "-" + "25" == "123-25";
    ShortenedRangeGroups();
    RestoreExample();
  }

  lemma ShortenedRangeGroups()
    ensures NormalizeNumber("123" + "-" + "25") == "123" + "-" + RestoreEnd("123", "25")
  {
    FixedRangeNormalized("123", "25");
    ShortenedRangeTrims();
  }

  lemma ShortenedRangeTrims()
    ensures TrimLeading("123", '0') == "123" && TrimLeading("25", '0') == "25"
  {
    NoZerosToTrim("123");
    NoZerosToTrim("25");
  }

  /** A range written with a single `-` is normalised group by group. */
  lemma FixedRangeNormalized(lo: string, e: string)
    requires AllDigits(lo) && AllDigits(e) && lo != [] && e != []
    ensures var t := TrimLeading(lo, '0');
            NormalizeNumber(lo + "-" + e) == t + "-" + RestoreEnd(t, TrimLeading(e, '0'))
  {
    MatchFixed(lo, e);
  }

  lemma RestoreExample()
    ensures "123" + "-" + RestoreEnd("123", "25") == "123-125"
  {
    assert "123"[..1] == "1";
  }

  lemma NoZerosToTrim(s: string)
    requires NoLeadingZero(s)
    ensures TrimLeading(s, '0') == s
  {
  }

  /** A plain number loses its leading zeros and nothing else: `00123`
      becomes `123`. */
  lemma LeadingZerosDropped(z: string, d: string)
    requires TrimLeading(z, '0') == [] && AllDigits(d) && NoLeadingZero(d)
    ensures NormalizeNumber(z + d) == d
  {
    ZerosAreDigits(z);
    assert AllDigits(z + d);
    DigitsAloneNoRange(z + d);
    TrimPadding(z, d);
    NoZerosToTrim(d);
  }

  /** A start that `lstrip("0")` strips to nothing, such as `0` or `000`, is
      dropped, so the result begins with the `-`. */
  lemma ZeroStartDropped(z: string, e: string)
    requires z != [] && TrimLeading(z, '0') == []
    requires AllDigits(e) && e != []
    ensures NormalizeNumber(z + "-" + e) == "-" + TrimLeading(e, '0')
  {
    ZerosAreDigits(z);
    ZeroStartTrimmed(z, e);
    EmptyStartJoined(TrimLeading(e, '0'));
  }

  lemma EmptyStartJoined(hi: string)
    ensures [] + "-" + RestoreEnd([], hi) == "-" + hi
  {
    assert RestoreEnd([], hi) == hi;
  }

  lemma ZeroStartTrimmed(z: string, e: string)
    requires AllDigits(z) && TrimLeading(z, '0') == []
    requires AllDigits(e) && z != [] && e != []
    ensures NormalizeNumber(z + "-" + e) == [] + "-" + RestoreEnd([], TrimLeading(e, '0'))
  {
    FixedRangeNormalized(z, e);
  }

  /** Text that `lstrip("0")` removes entirely is all digits. */
  lemma ZerosAreDigits(z: string)
    requires TrimLeading(z, '0') == []
    ensures AllDigits(z)
  {
    forall c | c in z ensures IsDigit(c) {
      var i :| 0 <= i < |z| && z[i] == c;
    }
  }

  /** A space and a `/` both separate a range: `123 125` and `123/125` become
      `123-125`. */
  lemma ExampleSeparators(sep: string)
    requires sep == " " || sep == "/"
    ensures NormalizeNumber("123" + sep + "125") == "123-125"
  {
    SingleGapRange("123", sep, "125");
    SeparatedResult();
  }

  lemma SeparatedResult()
    ensures var lo := TrimLeading("123", '0');
            lo + "-" + RestoreEnd(lo, TrimLeading("125", '0')) == "123-125"
  {
    NoZerosToTrim("123");
    NoZerosToTrim("125");
    assert RestoreEnd("123", "125") == "125";
    assert "123" + "-" + "125" == "123-125";
  }
}
