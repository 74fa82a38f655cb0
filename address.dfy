/** The address normaliser of `helix/utils/address.py`: the lookup tables, the
    word-level abbreviators, the assembler `normalize_address_str`, and the
    postal-code normaliser. */
module Address {
  import opened Wrappers
  import opened Strings
  import opened AddressNumber

  // ---------------------------------------------------------------------------
  // Tables

  /** `direction_map` of `_normalize_address_direction`. */
  const DirectionMap: map<string, string> := map[
    "east" := "e", "west" := "w", "north" := "n", "south" := "s",
    "northeast" := "ne", "northwest" := "nw", "southeast" := "se", "southwest" := "sw"]

  /** `POST_TYPE_MAP`. */
  const PostTypeMap: map<string, string> := map["avenue" := "ave"]

  /** `secondary_map` of `_normalize_secondary_address`, in the order written. */
  const SecondaryTable: seq<(string, string)> := [
    ("apartment", "apt"), ("building", "bldg"), ("floor", "fl"),
    ("suite", "ste"), ("room", "rm"), ("department", "dept")]

  /** `replacements` of `normalize_address_str`, in the order written. The
      first key is the UTF-8 encoding of U+FFFD, which on characters is U+FFFD
      itself; the second is a Python 2 byte-string literal, in which `\u` is no
      escape, so it is the six characters backslash, `u`, `F`, `F`, `F`, `D`. */
  const Replacements: seq<(string, string)> := [("\U{FFFD}", ""), ("\\uFFFD", "")]

  /** A table of abbreviations whose results are lower-case, dot-free and not
      themselves abbreviated again. */
  ghost predicate ClosedTable(table: map<string, string>) {
    forall k | k in table :: IsLowerStr(table[k]) && '.' !in table[k] && table[k] !in table
  }

  // ---------------------------------------------------------------------------
  // Word-level abbreviators

  /** `s.lower().replace('.', '')`. */
  function LowerNoDots(s: string): (r: string)
    ensures IsLowerStr(r) && '.' !in r
  {
    ReplaceRemovesChar(Lower(s), '.', "");
    ReplaceKeepsClass(Lower(s), ".", "", c => !IsUpperChar(c));
    Replace(Lower(s), ".", "")
  }

  /** Looks the lower-cased, dot-free spelling of `s` up in `table`, keeping it
      when it is not there. */
  function Abbreviate(table: map<string, string>, s: string): (r: string)
    requires ClosedTable(table)
    ensures IsLowerStr(r) && '.' !in r
  {
    var x := LowerNoDots(s);
    if x in table then table[x] else x
  }

  /** `_normalize_address_direction`. */
  function NormalizeDirection(d: string): (r: string)
    ensures IsLowerStr(r) && '.' !in r
    ensures LowerNoDots(d) in DirectionMap ==> r == DirectionMap[LowerNoDots(d)]
    ensures LowerNoDots(d) !in DirectionMap ==> r == LowerNoDots(d)
  {
    DirectionMapClosed();
    Abbreviate(DirectionMap, d)
  }

  /** `_normalize_address_post_type`. */
  function NormalizePostType(t: string): (r: string)
    ensures IsLowerStr(r) && '.' !in r
    ensures LowerNoDots(t) in PostTypeMap ==> r == PostTypeMap[LowerNoDots(t)]
    ensures LowerNoDots(t) !in PostTypeMap ==> r == LowerNoDots(t)
  {
    PostTypeMapClosed();
    Abbreviate(PostTypeMap, t)
  }

  /** Every unit word of `secondary_map` is non-empty, and every unit word and
      every abbreviation is lower-case without dots. */
  lemma SecondaryTableWords()
    ensures forall i | 0 <= i < |SecondaryTable| :: SecondaryTable[i].0 != []
    ensures forall i, c | 0 <= i < |SecondaryTable| && c in SecondaryTable[i].0 :: !IsUpperChar(c) && c != '.'
    ensures forall i, c | 0 <= i < |SecondaryTable| && c in SecondaryTable[i].1 :: !IsUpperChar(c) && c != '.'
  {
  }

  /** What `_normalize_secondary_address` computes: the lower-cased, dot-free
      text with every unit word of `SecondaryTable` replaced, wherever it
      occurs, by its abbreviation. */
  function SecondaryNormalized(s: string): (r: string)
    ensures IsLowerStr(r) && '.' !in r
  {
    var x := LowerNoDots(s);
    SecondaryKeepsClean(x);
    ReplaceEach(x, SecondaryTable)
  }

  /** Replacing unit words by their abbreviations keeps a text lower-case and
      free of dots. */
  lemma SecondaryKeepsClean(x: string)
    requires IsLowerStr(x) && '.' !in x
    ensures IsLowerStr(ReplaceEach(x, SecondaryTable)) && '.' !in ReplaceEach(x, SecondaryTable)
  {
    SecondaryTableWords();
    assert IsLowerStr(ReplaceEach(x, SecondaryTable)) by {
      ReplaceEachKeepsClass(x, SecondaryTable, c => !IsUpperChar(c));
    }
    assert '.' !in ReplaceEach(x, SecondaryTable) by {
      ReplaceEachKeepsClass(x, SecondaryTable, c => c != '.');
    }
  }

  /** `_normalize_secondary_address`, with its loop over `secondary_map`. */
  method NormalizeSecondary(s: string) returns (r: string)
    ensures r == SecondaryNormalized(s)
    ensures IsLowerStr(r) && '.' !in r
  {
    r := LowerNoDots(s);
    r := ApplyReplacements(r, SecondaryTable);
  }

  // ---------------------------------------------------------------------------
  // Lemmas about the abbreviators

  lemma LowerNoDotsFixed(s: string)
    requires IsLowerStr(s) && '.' !in s
    ensures LowerNoDots(s) == s
  {
    LowerOfLower(s);
    ReplaceAbsentChar(s, '.', "");
  }

  /** Abbreviating with a closed table twice is abbreviating once. */
  lemma AbbreviateIdempotent(table: map<string, string>, s: string)
    requires ClosedTable(table)
    ensures Abbreviate(table, Abbreviate(table, s)) == Abbreviate(table, s)
  {
    LowerNoDotsFixed(Abbreviate(table, s));
  }

  /** Every word of a table, written as it is in the table, is abbreviated to
      its entry. */
  lemma AbbreviateTableWord(table: map<string, string>, w: string)
    requires ClosedTable(table) && w in table && IsLowerStr(w) && '.' !in w
    ensures Abbreviate(table, w) == table[w]
  {
    LowerNoDotsFixed(w);
  }

  /** A lower-case, dot-free word not in the table is left as it is. */
  lemma AbbreviatePassThrough(table: map<string, string>, w: string)
    requires ClosedTable(table) && w !in table && IsLowerStr(w) && '.' !in w
    ensures Abbreviate(table, w) == w
  {
    LowerNoDotsFixed(w);
  }

  lemma DirectionMapClosed()
    ensures ClosedTable(DirectionMap)
    ensures forall k | k in DirectionMap :: IsLowerStr(k) && '.' !in k
  {
    DirectionKeys();
    DirectionValues();
  }

  lemma DirectionKeys()
    ensures forall k | k in DirectionMap :: IsLowerStr(k) && '.' !in k
  {
  }

  lemma DirectionValues()
    ensures forall k | k in DirectionMap :: IsLowerStr(DirectionMap[k]) && '.' !in DirectionMap[k]
    ensures forall k | k in DirectionMap :: DirectionMap[k] !in DirectionMap
  {
  }

  lemma PostTypeMapClosed()
    ensures ClosedTable(PostTypeMap)
    ensures forall k | k in PostTypeMap :: IsLowerStr(k) && '.' !in k
  {
  }

  /** `_normalize_address_direction` is idempotent. */
  lemma DirectionIdempotent(d: string)
    ensures NormalizeDirection(NormalizeDirection(d)) == NormalizeDirection(d)
  {
    DirectionMapClosed();
    AbbreviateIdempotent(DirectionMap, d);
  }

  /** `_normalize_address_post_type` is idempotent. */
  lemma PostTypeIdempotent(t: string)
    ensures NormalizePostType(NormalizePostType(t)) == NormalizePostType(t)
  {
    PostTypeMapClosed();
    AbbreviateIdempotent(PostTypeMap, t);
  }

  /** Each compass word maps to its code; any other lower-case dot-free word
      passes through. */
  lemma DirectionWords(w: string)
    ensures w in DirectionMap ==> NormalizeDirection(w) == DirectionMap[w]
    ensures w !in DirectionMap && IsLowerStr(w) && '.' !in w ==> NormalizeDirection(w) == w
  {
    DirectionMapClosed();
    if w in DirectionMap {
      AbbreviateTableWord(DirectionMap, w);
    } else if IsLowerStr(w) && '.' !in w {
      AbbreviatePassThrough(DirectionMap, w);
    }
  }

  /** `avenue` maps to `ave`; any other lower-case dot-free word passes through. */
  lemma PostTypeWords(w: string)
    ensures w in PostTypeMap ==> NormalizePostType(w) == PostTypeMap[w]
    ensures w !in PostTypeMap && IsLowerStr(w) && '.' !in w ==> NormalizePostType(w) == w
  {
    PostTypeMapClosed();
    if w in PostTypeMap {
      AbbreviateTableWord(PostTypeMap, w);
    } else if IsLowerStr(w) && '.' !in w {
      AbbreviatePassThrough(PostTypeMap, w);
    }
  }

  lemma LowerNorthwest()
    ensures LowerNoDots("Northwest") == "northwest"
  {
    LowerNorthwestChars();
    ReplaceAbsentChar("northwest", '.', "");
  }

  lemma LowerNorthwestChars()
    ensures Lower("Northwest") == "northwest"
  {
    var s := "Northwest";
    forall i | 0 <= i < 9 ensures Lower(s)[i] == "northwest"[i] {
      assert Lower(s)[i] == LowerChar(s[i]);
    }
  }

  lemma LowerAveDot()
    ensures LowerNoDots("Ave.") == "ave"
  {
    var s := "Ave.";
    assert Lower(s)[0] == 'a';
    assert Lower(s) == "ave.";
    assert Replace("ave.", ".", "") == "ave";
  }

  lemma ExampleDirection()
    ensures NormalizeDirection("Northwest") == "nw"
    ensures NormalizePostType("Ave.") == "ave"
  {
    LowerNorthwest();
    LowerAveDot();
    assert "northwest" in DirectionMap;
    assert "ave" !in PostTypeMap;
  }

  lemma LowerSuite()
    ensures LowerNoDots("Suite") == "suite"
  {
    LowerSuiteChars();
    ReplaceAbsentChar("suite", '.', "");
  }

  lemma LowerSuiteChars()
    ensures Lower("Suite") == "suite"
  {
    var s := "Suite";
    forall i | 0 <= i < 5 ensures Lower(s)[i] == "suite"[i] {
      assert Lower(s)[i] == LowerChar(s[i]);
    }
  }

  /** `suite` is abbreviated to `ste`, whatever its case. */
  lemma ExampleSecondary()
    ensures SecondaryNormalized("Suite") == "ste"
  {
    LowerSuite();
    SuiteReplaced();
  }

  lemma SuiteReplaced()
    ensures ReplaceEach("suite", SecondaryTable) == "ste"
  {
    assert SecondaryTable[3] == ("suite", "ste");
    SecondaryReplaced(3);
  }

  /** Each unit word of `secondary_map` is abbreviated to its entry: apartment
      to apt, building to bldg, floor to fl, suite to ste, room to rm and
      department to dept. */
  lemma SecondaryWords()
    ensures forall i | 0 <= i < |SecondaryTable| ::
      SecondaryNormalized(SecondaryTable[i].0) == SecondaryTable[i].1
  {
    forall i | 0 <= i < |SecondaryTable|
      ensures SecondaryNormalized(SecondaryTable[i].0) == SecondaryTable[i].1
    {
      SecondaryWord(i);
    }
  }

  /** The `k`-th unit word is abbreviated to its entry. */
  lemma SecondaryWord(k: nat)
    requires k < |SecondaryTable|
    ensures SecondaryNormalized(SecondaryTable[k].0) == SecondaryTable[k].1
  {
    SecondaryTableWords();
    LowerNoDotsFixed(SecondaryTable[k].0);
    SecondaryReplaced(k);
  }

  /** The table replaces the `k`-th unit word by its abbreviation: no earlier
      word occurs in it, and no later word occurs in its abbreviation. */
  lemma SecondaryReplaced(k: nat)
    requires k < |SecondaryTable|
    ensures ReplaceEach(SecondaryTable[k].0, SecondaryTable) == SecondaryTable[k].1
  {
    SecondaryTableWords();
    SecondaryBefore(k);
    SecondaryAfter(k);
    ReplaceEachOneHit(SecondaryTable[k].0, SecondaryTable, k);
  }

  /** No unit word contains a unit word listed before it. */
  lemma SecondaryBefore(k: nat)
    requires k < |SecondaryTable|
    ensures forall i | 0 <= i < k :: !Contains(SecondaryTable[k].0, SecondaryTable[i].0)
  {
    forall i | 0 <= i < k
      ensures !Contains(SecondaryTable[k].0, SecondaryTable[i].0)
    {
      if k == 5 {
        DepartmentAbsences(i);
      } else if k == 3 && i == 2 {
        SameLengthAbsent("suite", "floor");
      } else {
        ShorterAbsent(SecondaryTable[k].0, SecondaryTable[i].0);
      }
    }
  }

  /** No earlier unit word occurs in `department`. */
  lemma DepartmentAbsences(i: nat)
    requires i < 5
    ensures !Contains("department", SecondaryTable[i].0)
  {
    if i == 0 {
      forall j: nat | j <= 10 ensures !OccursAt("department", "apartment", j) {
        if j + 9 <= 10 {
          assert "department"[j..j + 9][0] == "department"[j];
        }
      }
    } else if i == 1 {
      CharAbsent("department", "building", 'b');
    } else if i == 2 {
      CharAbsent("department", "floor", 'f');
    } else if i == 3 {
      CharAbsent("department", "suite", 's');
    } else {
      CharAbsent("department", "room", 'o');
    }
  }

  /** No abbreviation contains a unit word listed after its own. */
  lemma SecondaryAfter(k: nat)
    requires k < |SecondaryTable|
    ensures forall i | k < i < |SecondaryTable| :: !Contains(SecondaryTable[k].1, SecondaryTable[i].0)
  {
    forall i | k < i < |SecondaryTable|
      ensures !Contains(SecondaryTable[k].1, SecondaryTable[i].0)
    {
      if k == 1 && i == 4 {
        SameLengthAbsent("bldg", "room");
      } else {
        ShorterAbsent(SecondaryTable[k].1, SecondaryTable[i].0);
      }
    }
  }

  lemma BroomSteps()
    ensures Replace("broom", "floor", "fl") == "broom"
    ensures Replace("broom", "suite", "ste") == "broom"
    ensures Replace("broom", "room", "rm") == "brm"
  {
    BroomNoWord("floor", "fl");
    BroomNoWord("suite", "ste");
    BroomRoom();
  }

  lemma BroomNoWord(w: string, a: string)
    requires |w| == 5 && w != "broom"
    ensures Replace("broom", w, a) == "broom"
  {
    assert "broom"[..5] == "broom";
    assert "broom"[1..] == "room";
    assert Replace("room", w, a) == "room";
    assert [ 'b' ] + "room" == "broom";
  }

  lemma BroomRoom()
    ensures Replace("broom", "room", "rm") == "brm"
  {
    assert "broom"[..4] == "broo" && "broo" != "room";
    assert "broom"[1..] == "room";
    assert "room"[..4] == "room" && "room"[4..] == "";
    assert Replace("room", "room", "rm") == "rm" + Replace("", "room", "rm");
    assert [ 'b' ] + "rm" == "brm";
  }

  /** Unit words are replaced inside other words too. */
  lemma ExampleSecondaryInsideWord()
    ensures SecondaryNormalized("broom") == "brm"
  {
    LowerNoDotsFixed("broom");
    BroomTable();
  }

  lemma BroomTable()
    ensures ReplaceEach("broom", SecondaryTable) == "brm"
  {
    BroomSteps();
    var t := SecondaryTable;
    calc {
      ReplaceEach("broom", t);
      ReplaceEach(Replace("broom", "apartment", "apt"), t[1..]);
      ReplaceEach("broom", t[1..]);
      ReplaceEach(Replace("broom", "building", "bldg"), t[2..]);
      { assert t[1..][1..] == t[2..]; }
      ReplaceEach("broom", t[2..]);
      { assert t[2..][1..] == t[3..]; }
      ReplaceEach("broom", t[3..]);
      { assert t[3..][1..] == t[4..]; }
      ReplaceEach("broom", t[4..]);
      { assert t[4..][1..] == t[5..]; }
      ReplaceEach("brm", t[5..]);
      { assert t[5..][1..] == []; }
      ReplaceEach("brm", []);
    }
  }

  /** Text in which no unit word of `SecondaryTable` occurs is only lower-cased
      and stripped of its dots. */
  lemma SecondaryPassThrough(s: string)
    requires forall i | 0 <= i < |SecondaryTable| :: !Contains(LowerNoDots(s), SecondaryTable[i].0)
    ensures SecondaryNormalized(s) == LowerNoDots(s)
  {
    ReplaceEachAbsent(LowerNoDots(s), SecondaryTable);
  }

  // ---------------------------------------------------------------------------
  // normalize_address_str

  /** The components that the tagger (`usaddress.tag`, with `CornerOf` mapped to
      `AddressNumber`) can report and that the assembler reads. */
  datatype Label =
    | AddressNumberLabel
    | StreetNamePreDirectional
    | StreetName
    | StreetNamePostType
    | StreetNamePostDirectional
    | SubaddressType
    | SubaddressIdentifier
    | OccupancyType
    | OccupancyIdentifier

  /** What the tagger does with a line: the components it found (a label with
      the value `None` is absent from the map), or one of the two exceptions
      the normaliser catches. */
  datatype TagOutcome =
    | Tagged(components: map<Label, string>)
    | RepeatedLabelError
    | UnicodeEncodeError

  /** The order of the nine `if` blocks of the assembler. */
  const ComponentOrder: seq<Label> := [
    AddressNumberLabel, StreetNamePreDirectional, StreetName, StreetNamePostType,
    StreetNamePostDirectional, SubaddressType, SubaddressIdentifier, OccupancyType,
    OccupancyIdentifier]

  /** How the assembler normalises the value of each component. */
  function NormalizeComponent(l: Label, v: string): string {
    match l
    case AddressNumberLabel => NormalizeNumber(v)
    case StreetNamePreDirectional => NormalizeDirection(v)
    case StreetName => v
    case StreetNamePostType => NormalizePostType(v)
    case StreetNamePostDirectional => NormalizeDirection(v)
    case SubaddressType => SecondaryNormalized(v)
    case SubaddressIdentifier => NormalizeNumber(v)
    case OccupancyType => SecondaryNormalized(v)
    case OccupancyIdentifier => NormalizeNumber(v)
  }

  /** The part a label contributes: its normalised value when it was tagged. */
  function Part(tags: map<Label, string>, l: Label): (r: seq<string>)
    ensures |r| <= 1
  {
    if l in tags then [NormalizeComponent(l, tags[l])] else []
  }

  /** The normalised values of the labels of `order` that were tagged, in the
      order of `order`. */
  function Parts(tags: map<Label, string>, order: seq<Label>): (r: seq<string>)
    ensures |r| <= |order|
  {
    if order == [] then []
    else Parts(tags, order[..|order| - 1]) + Part(tags, order[|order| - 1])
  }

  /** The parts joined by single spaces, with one leading space when there is
      no address number but some other part. */
  function Line(numbered: bool, parts: seq<string>): string {
    if !numbered && parts != [] then " " + SpaceJoin(parts) else SpaceJoin(parts)
  }

  /** The line the assembler builds before the street-type formatter sees it. */
  function Assembled(tags: map<Label, string>, order: seq<Label>): string {
    Line(AddressNumberLabel in tags, Parts(tags, order))
  }

  /** `address_val` after the `replacements` loop. */
  function Cleaned(line1: string): (r: string)
    ensures '\U{FFFD}' !in r
  {
    ReplaceRemovesChar(line1, '\U{FFFD}', "");
    ReplaceKeepsClass(Replace(line1, "\U{FFFD}", ""), "\\uFFFD", "", c => c != '\U{FFFD}');
    ReplaceEach(line1, Replacements)
  }

  /** The text handed to the tagger: the cleaned first line, followed by a space
      and the second line when there is one. */
  function TaggerInput(line1: string, line2: string): string {
    if line2 == [] then Cleaned(line1) else Cleaned(line1) + " " + line2
  }

  /** What `normalize_address_str` returns, with the tagger and the street-type
      formatter (`abbrev_street_avenue_etc`) as parameters: `None` for an empty
      first line; otherwise the assembled components, or the cleaned first line
      when the tagger raises, passed through the formatter, lower-cased and
      stripped. */
  function NormalizedAddress(line1: string, line2: string,
                             tag: string -> TagOutcome, abbrev: string -> string): (r: Option<string>)
    ensures r.None? <==> line1 == []
    ensures r.Some? ==> IsLowerStr(r.value) && IsStripped(r.value)
    ensures line1 != [] && !tag(TaggerInput(line1, line2)).Tagged? ==> r == Some(Strip(Lower(Cleaned(line1))))
    ensures line1 != [] && tag(TaggerInput(line1, line2)).Tagged? ==>
              r == Some(Strip(Lower(abbrev(Assembled(tag(TaggerInput(line1, line2)).components, ComponentOrder)))))
  {
    if line1 == [] then None
    else
      match tag(TaggerInput(line1, line2))
      case Tagged(c) => Some(Strip(Lower(abbrev(Assembled(c, ComponentOrder)))))
      case _ => Some(Strip(Lower(Cleaned(line1))))
  }

  /** `normalize_address_str`: the cleaning loop, the tagger call, the
      assembler and the final formatting. */
  method NormalizeAddressStr(line1: string, line2: string,
                             tag: string -> TagOutcome, abbrev: string -> string) returns (r: Option<string>)
    ensures r == NormalizedAddress(line1, line2, tag, abbrev)
  {
    if line1 == [] {
      return None;
    }
    var addressVal := ApplyReplacements(line1, Replacements);
    var outcome: TagOutcome;
    if line2 != [] {
      outcome := tag(addressVal + " " + line2);
    } else {
      outcome := tag(addressVal);
    }
    var normalized: string;
    match outcome {
      case Tagged(addr) =>
        normalized := AssembleComponents(addr);
        normalized := abbrev(normalized);
      case RepeatedLabelError =>
        normalized := addressVal;
      case UnicodeEncodeError =>
        normalized := addressVal;
    }
    r := Some(Strip(Lower(normalized)));
  }

  /** The nine `if` blocks of `normalize_address_str` that build the line from
      the tagged components: the address number, then one block per later
      component in `ComponentOrder`. */
  method AssembleComponents(addr: map<Label, string>) returns (normalized: string)
    ensures normalized == Assembled(addr, ComponentOrder)
  {
    normalized := "";
    if AddressNumberLabel in addr {
      normalized := NormalizeNumber(addr[AddressNumberLabel]);
    }
    NumberBlock(addr);
    normalized := AppendStreetBlocks(normalized, addr);
    normalized := AppendUnitBlocks(normalized, addr);
    WholeOrder(addr);
  }

  /** The four street blocks: pre-directional, street name, post type and
      post-directional. */
  method AppendStreetBlocks(line: string, addr: map<Label, string>) returns (r: string)
    requires line == Assembled(addr, ComponentOrder[..1])
    ensures r == Assembled(addr, ComponentOrder[..5])
  {
    r := AppendComponent(line, addr, 1);  // StreetNamePreDirectional
    r := AppendComponent(r, addr, 2);     // StreetName
    r := AppendComponent(r, addr, 3);     // StreetNamePostType
    r := AppendComponent(r, addr, 4);     // StreetNamePostDirectional
  }

  /** The four unit blocks: subaddress type and identifier, occupancy type and
      identifier. */
  method AppendUnitBlocks(line: string, addr: map<Label, string>) returns (r: string)
    requires line == Assembled(addr, ComponentOrder[..5])
    ensures r == Assembled(addr, ComponentOrder[..9])
  {
    r := AppendComponent(line, addr, 5);  // SubaddressType
    r := AppendComponent(r, addr, 6);     // SubaddressIdentifier
    r := AppendComponent(r, addr, 7);     // OccupancyType
    r := AppendComponent(r, addr, 8);     // OccupancyIdentifier
  }

  /** After the last block, the line is assembled over every label. */
  lemma WholeOrder(tags: map<Label, string>)
    ensures Assembled(tags, ComponentOrder[..9]) == Assembled(tags, ComponentOrder)
  {
    assert ComponentOrder[..9] == ComponentOrder;
  }

  /** The first block: the line holds the normalised address number, or
      nothing when there is none. */
  lemma NumberBlock(tags: map<Label, string>)
    ensures Assembled(tags, ComponentOrder[..1]) ==
      if AddressNumberLabel in tags then NormalizeNumber(tags[AddressNumberLabel]) else ""
  {
    var order := ComponentOrder[..1];
    assert order == [AddressNumberLabel];
    assert order[..0] == [];
    assert Parts(tags, order) == Part(tags, AddressNumberLabel);
  }

  /** One of the eight later `if` blocks, the one of the `k`-th label `l` of
      `ComponentOrder`: when `l` was tagged, appends a space and its
      normalised value (`OrderStep`), which extends the assembled line by one
      label. */
  method AppendComponent(line: string, addr: map<Label, string>, k: nat) returns (r: string)
    requires 1 <= k < |ComponentOrder|
    requires line == Assembled(addr, ComponentOrder[..k])
    ensures r == Assembled(addr, ComponentOrder[..k + 1])
  {
    var l := ComponentOrder[k];
    r := line;
    if l in addr {
      var v := addr[l];
      match l {
        case SubaddressType => v := NormalizeSecondary(v);
        case OccupancyType => v := NormalizeSecondary(v);
        case _ => v := NormalizeComponent(l, v);
      }
      r := line + " " + v;
    }
    OrderStep(addr, k, l);
  }

  // ---------------------------------------------------------------------------
  // Lemmas about the assembler

  /** Once the address number has been read, a tagged number makes the parts non-empty. */
  lemma {:induction false} PartsWithNumber(tags: map<Label, string>, order: seq<Label>)
    requires AddressNumberLabel in tags && order != [] && order[0] == AddressNumberLabel
    ensures Parts(tags, order) != []
    decreases |order|
  {
    if |order| > 1 {
      PartsWithNumber(tags, order[..|order| - 1]);
    }
  }

  /** Appending a part appends a space and the part to the line, unless the
      line was empty and unnumbered, in which case it still gains the space. */
  lemma LineSnoc(numbered: bool, parts: seq<string>, x: string)
    requires numbered ==> parts != []
    ensures Line(numbered, parts + [x]) == Line(numbered, parts) + " " + x
  {
    if parts == [] {
      assert SpaceJoin(parts + [x]) == x;
    } else {
      SpaceJoinSnoc(parts, x);
    }
  }

  /** The block of the `k`-th label of `ComponentOrder` appends a space and the
      normalised component when the component was tagged, and changes nothing
      otherwise. */
  lemma OrderStep(tags: map<Label, string>, k: nat, l: Label)
    requires 1 <= k < |ComponentOrder| && ComponentOrder[k] == l
    ensures Assembled(tags, ComponentOrder[..k + 1]) ==
      if l in tags then Assembled(tags, ComponentOrder[..k]) + " " + NormalizeComponent(l, tags[l])
      else Assembled(tags, ComponentOrder[..k])
  {
    var order := ComponentOrder[..k];
    assert ComponentOrder[..k + 1][..k] == order;
    assert Parts(tags, ComponentOrder[..k + 1]) == Parts(tags, order) + Part(tags, l);
    if l in tags {
      if AddressNumberLabel in tags {
        PartsWithNumber(tags, order);
      }
      LineSnoc(AddressNumberLabel in tags, Parts(tags, order), NormalizeComponent(l, tags[l]));
    } else {
      assert Parts(tags, order) + Part(tags, l) == Parts(tags, order);
    }
  }

  /** Every label the tagger can report has a block, and no label has two. */
  lemma ComponentOrderComplete(l: Label)
    ensures l in ComponentOrder
    ensures forall i, j | 0 <= i < j < |ComponentOrder| :: ComponentOrder[i] != ComponentOrder[j]
  {
    match l
    case AddressNumberLabel => assert ComponentOrder[0] == l;
    case StreetNamePreDirectional => assert ComponentOrder[1] == l;
    case StreetName => assert ComponentOrder[2] == l;
    case StreetNamePostType => assert ComponentOrder[3] == l;
    case StreetNamePostDirectional => assert ComponentOrder[4] == l;
    case SubaddressType => assert ComponentOrder[5] == l;
    case SubaddressIdentifier => assert ComponentOrder[6] == l;
    case OccupancyType => assert ComponentOrder[7] == l;
    case OccupancyIdentifier => assert ComponentOrder[8] == l;
  }

  /** The parts of a prefix of `order` are a prefix of the parts of `order`. */
  lemma {:induction false} PartsPrefix(tags: map<Label, string>, order: seq<Label>, m: nat)
    requires m <= |order|
    ensures Parts(tags, order[..m]) <= Parts(tags, order)
    decreases |order|
  {
    if m < |order| {
      var init := order[..|order| - 1];
      assert init[..m] == order[..m];
      PartsPrefix(tags, init, m);
    } else {
      assert order[..m] == order;
    }
  }

  /** A tagged label at index `i` of `order` contributes its normalised value,
      right after the parts of the labels before it. */
  lemma PartsAt(tags: map<Label, string>, order: seq<Label>, i: nat)
    requires i < |order| && order[i] in tags
    ensures |Parts(tags, order[..i])| < |Parts(tags, order)|
    ensures Parts(tags, order)[|Parts(tags, order[..i])|] == NormalizeComponent(order[i], tags[order[i]])
  {
    assert order[..i + 1][..i] == order[..i];
    PartsPrefix(tags, order, i + 1);
  }

  /** Every part is the normalised value of some tagged label of `order`: the
      assembler invents nothing. */
  lemma {:induction false} PartsFrom(tags: map<Label, string>, order: seq<Label>, a: nat) returns (i: nat)
    requires a < |Parts(tags, order)|
    ensures i < |order| && order[i] in tags
    ensures Parts(tags, order)[a] == NormalizeComponent(order[i], tags[order[i]])
    decreases |order|
  {
    var init := order[..|order| - 1];
    var last := Part(tags, order[|order| - 1]);
    assert Parts(tags, order) == Parts(tags, init) + last;
    if a < |Parts(tags, init)| {
      i := PartsFrom(tags, init, a);
      assert order[i] == init[i];
    } else {
      i := |order| - 1;
      assert last != [] && Parts(tags, order)[a] == last[0];
    }
  }

  /** Each tagged component appears in the assembled parts, and two tagged
      components appear in the order of their `if` blocks. */
  lemma PartsInOrder(tags: map<Label, string>, i: nat, j: nat) returns (a: nat, b: nat)
    requires i < j < |ComponentOrder|
    requires ComponentOrder[i] in tags && ComponentOrder[j] in tags
    ensures a < b < |Parts(tags, ComponentOrder)|
    ensures Parts(tags, ComponentOrder)[a] == NormalizeComponent(ComponentOrder[i], tags[ComponentOrder[i]])
    ensures Parts(tags, ComponentOrder)[b] == NormalizeComponent(ComponentOrder[j], tags[ComponentOrder[j]])
  {
    var order := ComponentOrder;
    PartsAt(tags, order, i);
    PartsAt(tags, order, j);
    a := |Parts(tags, order[..i])|;
    b := |Parts(tags, order[..j])|;
    PartsAt(tags, order[..j], i);
    assert order[..j][..i] == order[..i];
  }

  /** The street name is taken as tagged, without normalisation. */
  lemma StreetNameVerbatim(tags: map<Label, string>)
    requires StreetName in tags
    ensures tags[StreetName] in Parts(tags, ComponentOrder)
  {
    PartsAt(tags, ComponentOrder, 2);
  }

  /** Over labels without repeats, there is one part per tagged label:
      absent labels contribute nothing and present ones exactly one part. */
  lemma {:induction false} PartsCount(tags: map<Label, string>, order: seq<Label>)
    requires forall i, j | 0 <= i < j < |order| :: order[i] != order[j]
    ensures |Parts(tags, order)| == |set l | l in order && l in tags|
    decreases |order|
  {
    if order == [] {
      assert (set l | l in order && l in tags) == {};
    } else {
      var init := order[..|order| - 1];
      var last := order[|order| - 1];
      assert order == init + [last];
      assert forall i | 0 <= i < |init| :: init[i] == order[i];
      PartsCount(tags, init);
      assert last !in init;
      TaggedSnoc(tags, init, last);
      assert |Parts(tags, order)| == |Parts(tags, init)| + |Part(tags, last)|;
    }
  }

  /** Adding a new label to `order` adds one tagged label exactly when it is
      tagged. */
  lemma TaggedSnoc(tags: map<Label, string>, init: seq<Label>, last: Label)
    requires last !in init
    ensures |set l | l in init + [last] && l in tags| ==
            |set l | l in init && l in tags| + |Part(tags, last)|
  {
    var before := set l | l in init && l in tags;
    var after := set l | l in init + [last] && l in tags;
    if last in tags {
      assert after == before + {last};
    } else {
      assert after == before;
    }
  }

  /** The assembler yields exactly one part per tagged component. */
  lemma PartsPerComponent(tags: map<Label, string>)
    ensures |Parts(tags, ComponentOrder)| == |tags|
  {
    ComponentOrderComplete(AddressNumberLabel);
    PartsCount(tags, ComponentOrder);
    forall l | l in tags ensures l in ComponentOrder {
      ComponentOrderComplete(l);
    }
    assert (set l | l in ComponentOrder && l in tags) == tags.Keys;
  }

  /** With an address number and no space inside any part, splitting the
      assembled line on spaces gives back exactly the parts; without a number,
      the leading space adds an empty first piece. */
  lemma AssembledSplits(tags: map<Label, string>)
    requires Parts(tags, ComponentOrder) != []
    requires forall i | 0 <= i < |Parts(tags, ComponentOrder)| :: ' ' !in Parts(tags, ComponentOrder)[i]
    ensures AddressNumberLabel in tags ==> SplitOnSpace(Assembled(tags, ComponentOrder)) == Parts(tags, ComponentOrder)
    ensures AddressNumberLabel !in tags ==> SplitOnSpace(Assembled(tags, ComponentOrder)) == [""] + Parts(tags, ComponentOrder)
  {
    var ps := Parts(tags, ComponentOrder);
    SplitSpaceJoin(ps);
    if AddressNumberLabel !in tags {
      SplitLeadingSpace(SpaceJoin(ps));
    }
  }

  // ---------------------------------------------------------------------------
  // normalize_postal_code

  /** `normalize_postal_code` on a string: stripped, then zero-padded on the
      left to five characters when shorter. */
  function NormalizePostalCode(code: string): (r: string)
    ensures |r| >= 5 && |r| >= |Strip(code)|
    ensures r[|r| - |Strip(code)|..] == Strip(code)
    ensures forall i | 0 <= i < |r| - |Strip(code)| :: r[i] == '0'
    ensures |Strip(code)| >= 5 ==> r == Strip(code)
    ensures |Strip(code)| < 5 ==> |r| == 5
  {
    var t := Strip(code);
    ZFillShape(t, 5);
    if |t| < 5 then ZFill(t, 5) else t
  }

  /** Normalising a postal code only adds leading zeros. */
  lemma PostalCodeValue(code: string)
    ensures TrimLeading(NormalizePostalCode(code), '0') == TrimLeading(Strip(code), '0')
  {
    var t := Strip(code);
    ZFillShape(t, 5);
    if |t| < 5 {
      var z := Repeat('0', 5 - |t|);
      assert NormalizePostalCode(code) == z + t;
      assert forall i | 0 <= i < |z| :: z[i] == '0' by {
        forall i | 0 <= i < |z| ensures z[i] == '0' {
          assert z[i] in z;
        }
      }
      TrimPadding(z, t);
    }
  }

  /** Normalising a postal code twice is normalising it once. */
  lemma PostalCodeIdempotent(code: string)
    ensures NormalizePostalCode(NormalizePostalCode(code)) == NormalizePostalCode(code)
  {
    var r := NormalizePostalCode(code);
    var t := Strip(code);
    assert IsStripped(r) by {
      if |t| < 5 {
        if t != [] {
          assert r[|r| - 1] == t[|t| - 1];
        }
        assert r[0] == '0';
      }
    }
  }

  /** A stripped four-character code, such as a code that lost its leading
      zero, gets one zero in front. */
  lemma PaddedToFive(t: string)
    requires IsStripped(t) && |t| == 4
    ensures NormalizePostalCode(t) == "0" + t
  {
    assert Repeat('0', 1) == "0";
  }
}
