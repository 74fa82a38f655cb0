/** The handful of Python 2 `str` methods that the address normaliser relies on,
    written over character sequences. Case mapping is ASCII-only, as it is for
    Python 2 byte strings; whitespace is the six characters `str.isspace` and
    the regular-expression class `\s` accept on byte strings. */
module Strings {

  predicate IsSpace(c: char) {
    c == ' ' || c == '\t' || c == '\n' || c == '\r' || c == '\U{000B}' || c == '\U{000C}'
  }

  predicate IsDigit(c: char) { '0' <= c <= '9' }

  predicate IsUpperChar(c: char) { 'A' <= c <= 'Z' }

  predicate IsLowerChar(c: char) { 'a' <= c <= 'z' }

  /** No character of `s` is an upper-case letter. */
  predicate IsLowerStr(s: string) { forall c | c in s :: !IsUpperChar(c) }

  /** No character of `s` is a lower-case letter. */
  predicate IsUpperStr(s: string) { forall c | c in s :: !IsLowerChar(c) }

  predicate AllDigits(s: string) { forall c | c in s :: IsDigit(c) }

  /** What `strip()` leaves alone: no whitespace at either end. */
  predicate IsStripped(s: string) {
    s == [] || (!IsSpace(s[0]) && !IsSpace(s[|s| - 1]))
  }

  /** `s` occurs somewhere in `t`. */
  predicate Contains(t: string, s: string) {
    exists i: nat | i <= |t| :: OccursAt(t, s, i)
  }

  /** `s` occurs in `t` starting at index `i`. */
  predicate OccursAt(t: string, s: string, i: nat) {
    i + |s| <= |t| && t[i..i + |s|] == s
  }

  function LowerChar(c: char): (r: char)
    ensures !IsUpperChar(r)
    ensures IsSpace(r) <==> IsSpace(c)
    ensures !IsUpperChar(c) ==> r == c
    ensures IsUpperChar(c) ==> IsLowerChar(r) && UpperChar(r) == c
  {
    if IsUpperChar(c) then (c as int + 32) as char else c
  }

  function UpperChar(c: char): (r: char)
    ensures !IsLowerChar(r)
    ensures IsSpace(r) <==> IsSpace(c)
    ensures !IsLowerChar(c) ==> r == c
    ensures IsLowerChar(c) ==> IsUpperChar(r)
  {
    if IsLowerChar(c) then (c as int - 32) as char else c
  }

  /** Python's `s.lower()`. */
  function Lower(s: string): (r: string)
    ensures |r| == |s|
    ensures forall i | 0 <= i < |s| :: r[i] == LowerChar(s[i])
    ensures IsLowerStr(r)
  {
    seq(|s|, i requires 0 <= i < |s| => LowerChar(s[i]))
  }

  /** Python's `s.upper()`. */
  function Upper(s: string): (r: string)
    ensures |r| == |s|
    ensures forall i | 0 <= i < |s| :: r[i] == UpperChar(s[i])
    ensures IsUpperStr(r)
  {
    seq(|s|, i requires 0 <= i < |s| => UpperChar(s[i]))
  }

  /** Python's `s.capitalize()`: the first character upper-cased and every
      other character lower-cased (not title case). */
  function Capitalize(s: string): (r: string)
    ensures |r| == |s|
    ensures s != [] ==> r[0] == UpperChar(s[0])
    ensures forall i | 1 <= i < |s| :: r[i] == LowerChar(s[i])
  {
    if s == [] then [] else [UpperChar(s[0])] + Lower(s[1..])
  }

  /** Python's `s.replace(pat, rep)` for a non-empty `pat`: occurrences are
      found left to right and do not overlap. */
  function Replace(s: string, pat: string, rep: string): (r: string)
    requires pat != []
    decreases |s|
  {
    if |s| < |pat| then s
    else if s[..|pat|] == pat then rep + Replace(s[|pat|..], pat, rep)
    else [s[0]] + Replace(s[1..], pat, rep)
  }

  /** Applies `Replace` for each (pattern, replacement) pair of `table`, in order,
      each to the result of the previous one. */
  function ReplaceEach(s: string, table: seq<(string, string)>): string
    requires forall i | 0 <= i < |table| :: table[i].0 != []
    decreases |table|
  {
    if table == [] then s else ReplaceEach(Replace(s, table[0].0, table[0].1), table[1..])
  }

  /** The loop `for k, v in table: s = s.replace(k, v)`, with `table` in a fixed order. */
  method ApplyReplacements(s: string, table: seq<(string, string)>) returns (r: string)
    requires forall i | 0 <= i < |table| :: table[i].0 != []
    ensures r == ReplaceEach(s, table)
  {
    r := s;
    var i := 0;
    while i < |table|
      invariant 0 <= i <= |table|
      invariant ReplaceEach(r, table[i..]) == ReplaceEach(s, table)
    {
      r := Replace(r, table[i].0, table[i].1);
      i := i + 1;
    }
  }

  /** Python's `s.lstrip()` leading half. */
  function TrimLeft(s: string): (r: string)
    ensures |r| <= |s| && r == s[|s| - |r|..]
    ensures forall i | 0 <= i < |s| - |r| :: IsSpace(s[i])
    ensures r == [] || !IsSpace(r[0])
  {
    if s != [] && IsSpace(s[0]) then TrimLeft(s[1..]) else s
  }

  function TrimRight(s: string): (r: string)
    ensures |r| <= |s| && r == s[..|r|]
    ensures forall i | |r| <= i < |s| :: IsSpace(s[i])
    ensures r == [] || !IsSpace(r[|r| - 1])
  {
    if s != [] && IsSpace(s[|s| - 1]) then TrimRight(s[..|s| - 1]) else s
  }

  /** Python's `s.strip()`: `s` less its leading and trailing whitespace. */
  function Strip(s: string): (r: string)
    ensures IsStripped(r)
    ensures forall c | c in r :: c in s
    ensures IsStripped(s) ==> r == s
  {
    TrimRight(TrimLeft(s))
  }

  /** Python's `s.lstrip(c)` for a single character `c`. */
  function TrimLeading(s: string, c: char): (r: string)
    ensures |r| <= |s| && r == s[|s| - |r|..]
    ensures forall i | 0 <= i < |s| - |r| :: s[i] == c
    ensures r == [] || r[0] != c
  {
    if s != [] && s[0] == c then TrimLeading(s[1..], c) else s
  }

  function Repeat(c: char, n: nat): (r: string)
    ensures |r| == n && forall x | x in r :: x == c
  {
    if n == 0 then [] else [c] + Repeat(c, n - 1)
  }

  /** Python's `s.zfill(width)` for a string without a leading sign. */
  function ZFill(s: string, width: nat): string {
    if |s| >= width then s else Repeat('0', width - |s|) + s
  }

  /** Python's `' '.join(parts)`. */
  function SpaceJoin(parts: seq<string>): string {
    if parts == [] then []
    else if |parts| == 1 then parts[0]
    else parts[0] + " " + SpaceJoin(parts[1..])
  }

  /** Python's `s.split(' ')`: the pieces between single spaces. */
  function SplitOnSpace(s: string): (r: seq<string>)
    ensures |r| >= 1
    decreases |s|
  {
    if ' ' !in s then [s]
    else
      var i := IndexOf(s, ' ');
      [s[..i]] + SplitOnSpace(s[i + 1..])
  }

  function IndexOf(s: string, c: char): (i: nat)
    requires c in s
    ensures i < |s| && s[i] == c && c !in s[..i]
  {
    if s[0] == c then 0 else 1 + IndexOf(s[1..], c)
  }

  // ---------------------------------------------------------------------------
  // Lemmas

  /** Splitting a space-joined list of space-free pieces gives the pieces back:
      a space-joined string separates its pieces by exactly one space each. */
  lemma {:induction false} SplitSpaceJoin(parts: seq<string>)
    requires parts != []
    requires forall i | 0 <= i < |parts| :: ' ' !in parts[i]
    ensures SplitOnSpace(SpaceJoin(parts)) == parts
  {
    if |parts| > 1 {
      var s := SpaceJoin(parts);
      var p := parts[0];
      var rest := SpaceJoin(parts[1..]);
      assert s == p + " " + rest;
      assert s[|p|] == ' ' && ' ' in s;
      assert s[..|p|] == p;
      IndexOfFirst(s, p);
      assert s[|p| + 1..] == rest;
      SplitSpaceJoin(parts[1..]);
    }
  }

  /** Appending a piece to a non-empty list appends a space and the piece to its join. */
  lemma {:induction false} SpaceJoinSnoc(parts: seq<string>, x: string)
    requires parts != []
    ensures SpaceJoin(parts + [x]) == SpaceJoin(parts) + " " + x
    decreases |parts|
  {
    if |parts| > 1 {
      assert (parts + [x])[1..] == parts[1..] + [x];
      SpaceJoinSnoc(parts[1..], x);
    } else {
      assert (parts + [x])[1..] == [x];
    }
  }

  /** Splitting text that starts with a space gives an empty first piece. */
  lemma SplitLeadingSpace(s: string)
    ensures SplitOnSpace(" " + s) == [""] + SplitOnSpace(s)
  {
    IndexOfFirst(" " + s, "");
    assert (" " + s)[1..] == s;
  }

  lemma IndexOfFirst(s: string, p: string)
    requires |p| < |s| && s[|p|] == ' ' && s[..|p|] == p && ' ' !in p
    ensures ' ' in s && IndexOf(s, ' ') == |p|
  {
    assert s[|p|] in s;
  }

  /** If neither `s` nor the replacement has a character outside class `P`,
      neither has the result of the replacement. */
  lemma {:induction false} ReplaceKeepsClass(s: string, pat: string, rep: string, P: char -> bool)
    requires pat != []
    requires forall c | c in s :: P(c)
    requires forall c | c in rep :: P(c)
    ensures forall c | c in Replace(s, pat, rep) :: P(c)
    decreases |s|
  {
    if |s| < |pat| {
    } else if s[..|pat|] == pat {
      assert forall c | c in s[|pat|..] :: c in s;
      ReplaceKeepsClass(s[|pat|..], pat, rep, P);
    } else {
      assert forall c | c in s[1..] :: c in s;
      ReplaceKeepsClass(s[1..], pat, rep, P);
    }
  }

  /** Replacing a one-character pattern by text without that character removes
      every occurrence of it. */
  lemma {:induction false} ReplaceRemovesChar(s: string, c: char, rep: string)
    requires c !in rep
    ensures c !in Replace(s, [c], rep)
    decreases |s|
  {
    if |s| >= 1 {
      ReplaceRemovesChar(s[1..], c, rep);
    }
  }

  /** Replacing a character that does not occur changes nothing. */
  lemma {:induction false} ReplaceAbsentChar(s: string, c: char, rep: string)
    requires c !in s
    ensures Replace(s, [c], rep) == s
    decreases |s|
  {
    if |s| >= 1 {
      assert s == [s[0]] + s[1..];
      assert s[..1] == [s[0]] && s[0] != c;
      ReplaceAbsentChar(s[1..], c, rep);
    }
  }

  /** Replacing a pattern that does not occur changes nothing. */
  lemma {:induction false} ReplaceAbsent(s: string, pat: string, rep: string)
    requires pat != [] && !Contains(s, pat)
    ensures Replace(s, pat, rep) == s
    decreases |s|
  {
    if |s| >= |pat| {
      assert !OccursAt(s, pat, 0);
      forall i: nat | i <= |s[1..]| ensures !OccursAt(s[1..], pat, i) {
        assert !OccursAt(s, pat, i + 1);
        if i + |pat| <= |s[1..]| {
          assert s[1..][i..i + |pat|] == s[i + 1..i + 1 + |pat|];
        }
      }
      ReplaceAbsent(s[1..], pat, rep);
      assert s == [s[0]] + s[1..];
    }
  }

  /** A table none of whose patterns occurs leaves a string unchanged. */
  lemma {:induction false} ReplaceEachAbsent(s: string, table: seq<(string, string)>)
    requires forall i | 0 <= i < |table| :: table[i].0 != [] && !Contains(s, table[i].0)
    ensures ReplaceEach(s, table) == s
    decreases |table|
  {
    if table != [] {
      ReplaceAbsent(s, table[0].0, table[0].1);
      ReplaceEachAbsent(s, table[1..]);
    }
  }

  /** Every application of a table whose replacements avoid `P`-violating
      characters keeps a string inside class `P`. */
  lemma {:induction false} ReplaceEachKeepsClass(s: string, table: seq<(string, string)>, P: char -> bool)
    requires forall i | 0 <= i < |table| :: table[i].0 != []
    requires forall c | c in s :: P(c)
    requires forall i, c | 0 <= i < |table| && c in table[i].1 :: P(c)
    ensures forall c | c in ReplaceEach(s, table) :: P(c)
    decreases |table|
  {
    if table != [] {
      ReplaceKeepsClass(s, table[0].0, table[0].1, P);
      ReplaceEachKeepsClass(Replace(s, table[0].0, table[0].1), table[1..], P);
    }
  }

  lemma LowerOfLower(s: string)
    requires IsLowerStr(s)
    ensures Lower(s) == s
  {
    forall i | 0 <= i < |s| ensures Lower(s)[i] == s[i] {
      assert s[i] in s;
    }
  }

  lemma UpperOfUpper(s: string)
    requires IsUpperStr(s)
    ensures Upper(s) == s
  {
    forall i | 0 <= i < |s| ensures Upper(s)[i] == s[i] {
      assert s[i] in s;
    }
  }

  /** The lower-cased spelling is enough to know the capitalised one. */
  lemma CapitalizeCaseless(s: string, t: string)
    requires Lower(s) == Lower(t)
    ensures Capitalize(s) == Capitalize(t)
  {
    assert |s| == |t|;
    if s != [] {
      assert LowerChar(s[0]) == LowerChar(t[0]);
      assert UpperChar(s[0]) == UpperChar(t[0]) by {
        assert Lower(s)[0] == Lower(t)[0];
      }
      forall i | 1 <= i < |s| ensures Capitalize(s)[i] == Capitalize(t)[i] {
        assert Lower(s)[i] == Lower(t)[i];
      }
    }
  }

  /** One space of padding on each side of a stripped text is stripped away. */
  lemma StripPadded(s: string)
    requires IsStripped(s)
    ensures Strip(" " + s + " ") == s
  {
    assert " " + s + " " == " " + (s + " ");
    TrimLeftSpace(s + " ");
    if s == [] {
      TrimLeftSpace("");
    } else {
      assert (s + " ")[0] == s[0];
      TrimLeftStop(s + " ");
      TrimRightSpace(s);
      TrimRightStop(s);
    }
  }

  lemma TrimLeftSpace(s: string)
    ensures TrimLeft(" " + s) == TrimLeft(s)
  {
    assert (" " + s)[1..] == s;
  }

  lemma TrimRightSpace(s: string)
    ensures TrimRight(s + " ") == TrimRight(s)
  {
    assert (s + " ")[..|s|] == s;
  }

  lemma TrimLeftStop(s: string)
    requires s == [] || !IsSpace(s[0])
    ensures TrimLeft(s) == s
  {
  }

  lemma TrimRightStop(s: string)
    requires s == [] || !IsSpace(s[|s| - 1])
    ensures TrimRight(s) == s
  {
  }

  /** The result of `zfill(width)` is at least `width` long, ends with the input,
      and what it adds in front is only zeros. */
  lemma ZFillShape(s: string, width: nat)
    ensures |ZFill(s, width)| >= width && |ZFill(s, width)| >= |s|
    ensures ZFill(s, width)[|ZFill(s, width)| - |s|..] == s
    ensures forall i | 0 <= i < |ZFill(s, width)| - |s| :: ZFill(s, width)[i] == '0'
    ensures |s| >= width ==> ZFill(s, width) == s
    ensures |s| < width ==> |ZFill(s, width)| == width
  {
    if |s| < width {
      var z := Repeat('0', width - |s|);
      assert ZFill(s, width) == z + s;
      forall i | 0 <= i < |z| ensures (z + s)[i] == '0' {
        assert z[i] in z;
      }
    }
  }

  /** Zeros written in front of a text disappear again under `lstrip("0")`. */
  lemma {:induction false} TrimPadding(z: string, t: string)
    requires forall i | 0 <= i < |z| :: z[i] == '0'
    ensures TrimLeading(z + t, '0') == TrimLeading(t, '0')
    decreases |z|
  {
    if z != [] {
      assert (z + t)[1..] == z[1..] + t;
      TrimPadding(z[1..], t);
    } else {
      assert z + t == t;
    }
  }

  /** A pattern longer than the text does not occur in it. */
  lemma ShorterAbsent(s: string, pat: string)
    requires |s| < |pat|
    ensures !Contains(s, pat)
  {
  }

  /** A pattern holding a character the text lacks does not occur in it. */
  lemma CharAbsent(s: string, pat: string, c: char)
    requires c in pat && c !in s
    ensures !Contains(s, pat)
  {
  }

  /** A different text of the same length as the pattern does not contain it. */
  lemma SameLengthAbsent(s: string, pat: string)
    requires |s| == |pat| && s != pat
    ensures !Contains(s, pat)
  {
    assert s[0..|pat|] == s;
  }

  /** The whole text, replaced as a pattern, gives the replacement. */
  lemma ReplaceWhole(w: string, rep: string)
    requires w != []
    ensures Replace(w, w, rep) == rep
  {
    assert w[..|w|] == w && w[|w|..] == [];
    assert rep + [] == rep;
  }

  /** A word that is the `k`-th pattern of a table, contains none of the
      patterns before it, and is replaced by a text containing none of the
      patterns after it, comes out of the table as that replacement. */
  lemma {:induction false} ReplaceEachOneHit(w: string, table: seq<(string, string)>, k: nat)
    requires forall i | 0 <= i < |table| :: table[i].0 != []
    requires k < |table| && table[k].0 == w
    requires forall i | 0 <= i < k :: !Contains(w, table[i].0)
    requires forall i | k < i < |table| :: !Contains(table[k].1, table[i].0)
    ensures ReplaceEach(w, table) == table[k].1
    decreases k
  {
    if k == 0 {
      ReplaceWhole(w, table[0].1);
      ReplaceEachAbsent(table[0].1, table[1..]);
    } else {
      ReplaceAbsent(w, table[0].0, table[0].1);
      ReplaceEachOneHit(w, table[1..], k - 1);
    }
  }
}
