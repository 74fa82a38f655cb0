# HELIX address normaliser in Dafny

HELIX imports home-energy data into SEED. When it matches uploaded records to
stored properties, it uses a canonical form of each address. This project
models the normaliser that builds that form (`helix/utils/address.py`):

- the lookup tables: states, compass directions, post types, unit words;
- the street-number pattern `ADDRESS_NUMBER_RE` and the street-number
  normaliser;
- the direction, post-type and unit-word normalisers;
- the assembler `normalize_address_str`;
- the postal-code and state normalisers.

It also models two helpers of `helix/helix_utils.py`: `mapping_entry`, which
builds one column-mapping entry, and `test_score_value`, which cleans a
green-assessment score.

Six modules:

- `Wrappers` (`wrappers.dfy`): `Option`, for Python's `None` or a value.
- `Strings` (`strings.dfy`): the Python 2 `str` operations the code relies
  on. Case mapping is ASCII only, as in Python 2 `str`. Whitespace is the six
  characters `strip()` and the regex `\s` remove. `replace` scans left to
  right without overlaps.
- `AddressNumber` (`address_number.dfy`): `ADDRESS_NUMBER_RE` and
  `_normalize_address_number`. `MatchRange` is a greedy, deterministic
  scanner. Two lemmas prove it agrees with the pattern as `re.match` applies
  it. `MatchRangeSound`: what it reports is a match. `MatchRangeComplete`:
  whenever the pattern matches, it reports the same groups.
- `Address` (`address.dfy`): the direction, post-type and unit-word tables,
  the word normalisers, the assembler and postal codes. The tagger (`usaddress.tag`) and the
  street-type formatter (`abbrev_street_avenue_etc`) are parameters of the
  assembler, modelled as functions.
- `States` (`state.dfy`): `STATE_MAP` and `normalize_state`.
- `HelixUtils` (`helix_utils.dfy`): `mapping_entry` and `test_score_value`.

The imperative parts are methods, proved against specification functions:

- the `replacements` loop and the `secondary_map` loop
  (`Strings.ApplyReplacements`, specified by `ReplaceEach`);
- the nine `if` blocks of the assembler (`Address.AssembleComponents`).
  Each later block is one call to `Address.AppendComponent`, and the
  specification is `Assembled`;
- `normalize_address_str` itself (`Address.NormalizeAddressStr`, specified
  by `NormalizedAddress`).

Some behaviour of the code is easy to miss. The model keeps all of it:

- `STATE_MAP` has 57 entries: the 50 states, DC, AS, GU, MP, PR, VI, and
  `National` → `NA`.
- `normalize_state` looks names up with `capitalize()`, which lower-cases
  everything after the first letter. So an entry whose name has a second
  capital, such as `New York` or `West Virginia`, can never be reached, and
  `New York` passes through unchanged. `StateNewYork` proves `NY` is reached
  only from a two-letter `ny` in any case.
- The second `replacements` key `'\uFFFD'` is a Python 2 byte-string literal.
  There `\u` is not an escape, so the key is the six characters backslash,
  `u`, `F`, `F`, `F`, `D`. The first key, the UTF-8 bytes of U+FFFD, becomes
  the character U+FFFD itself.
- A range whose start is all zeros loses its start: `0-5` becomes `-5`
  (`ZeroStartDropped`).
- The unit-word replacement matches inside words too: `broom` becomes
  `brm` (`ExampleSecondaryInsideWord`).

Some members exist only to keep proofs small for the solver. `StateMap` is
written as eight runs of entries (`StateRun0` … `StateRun7`) so that facts
about it are proved run by run. The proofs of the literal examples go through
small steps such as `LowerEwYork` or `BroomNoWord`, because the solver
evaluates functions on literal text eagerly.

## Model

| member | source | states |
|---|---|---|
| AddressNumber.MatchRange | helix/utils/address.py:100-120 | the greedy scanner for `ADDRESS_NUMBER_RE.match`: the start group, the gap and the end group, or no match; its meaning is stated by `MatchRangeSound` and `MatchRangeComplete` |
| AddressNumber.MatchRangeSound | helix/utils/address.py:100-108 | what the scanner reports is a match of the pattern at the start of the text: a digit group, an accepted gap whose last character is a space or separator, and a digit group extended as far as the digits go |
| AddressNumber.MatchRangeComplete | helix/utils/address.py:100-108 | whenever the pattern matches at the start with some groups, the scanner reports the same start and gap, and an end group at least as long |
| AddressNumber.DigitsAloneNoRange | helix/utils/address.py:100-108 | a run of digits alone is never a range, because the lookbehind needs a space or a separator |
| AddressNumber.NormalizeNumber | helix/utils/address.py:111-133 | `_normalize_address_number`: a range becomes its trimmed start, `-` and its restored end; anything else loses its leading zeros; its properties are stated by the lemmas below |
| AddressNumber.RangeNormalized | helix/utils/address.py:120-130 | for a range, the result is the start without leading zeros, `-`, and an end without leading zeros that is at least as long as the start, ends in the written end, and takes its missing leading digits from the start |
| AddressNumber.ShortenedEndRestored | helix/utils/address.py:125-129 | `lo-hi` with `hi` shorter than `lo` becomes `lo-` followed by the first digits of `lo` and then `hi` |
| AddressNumber.NonRangeNormalized | helix/utils/address.py:132-133 | a non-range loses exactly its leading zeros: the result is a suffix of the input, everything dropped is `0`, and the result does not start with `0` |
| AddressNumber.NormalizeNumberIdempotent | helix/utils/address.py:111-133 | normalising a street number twice gives the same result as once |
| AddressNumber.NormalizedRangeIsFixed | helix/utils/address.py:120-130 | a range already in normal form normalises to itself |
| AddressNumber.StrippedStaysNonRange | helix/utils/address.py:100-133 | removing leading zeros never turns a non-range into a range |
| AddressNumber.ExampleShortenedRange | helix/utils/address.py:125-130 | `123-25` becomes `123-125` |
| AddressNumber.LeadingZerosDropped | helix/utils/address.py:132-133 | a number of digits without a leading zero, written after any run of zeros, normalises to itself: `00123` becomes `123` |
| AddressNumber.ZeroStartDropped | helix/utils/address.py:124-130 | a range whose start is only zeros, such as `0-5`, loses its start: the result is `-` and the end without its leading zeros |
| AddressNumber.ExampleSeparators | helix/utils/address.py:103-105 | with a space or a `/` between `123` and `125`, the result is `123-125` |
| Strings.ApplyReplacements | helix/utils/address.py:170-171 | the loop of `replace` calls over the table gives `ReplaceEach`, each pair applied in turn to the previous result; it also serves the `secondary_map` loop of lines 145-146 |
| Address.LowerNoDots | helix/utils/address.py:74 | `lower().replace('.', '')`, shared by the direction normaliser, the post-type normaliser (line 96) and the unit-word normaliser (line 136): the result is lower-case and has no `.` |
| Address.NormalizeDirection | helix/utils/address.py:73-87 | the result is lower-case with no `.`; a listed direction gives its code; any other spelling gives its lower-cased, dot-free self |
| Address.NormalizePostType | helix/utils/address.py:90-97 | the same for the post-type table: `avenue` gives `ave`, anything else its lower-cased, dot-free self |
| Address.DirectionIdempotent | helix/utils/address.py:73-87 | normalising a direction twice gives the same result as once |
| Address.PostTypeIdempotent | helix/utils/address.py:90-97 | normalising a post type twice gives the same result as once |
| Address.DirectionWords | helix/utils/address.py:75-87 | each compass word maps to its code; a lower-case, dot-free word not in the table is unchanged |
| Address.PostTypeWords | helix/utils/address.py:90-97 | `avenue` maps to `ave`; a lower-case, dot-free word not in the table is unchanged |
| Address.ExampleDirection | helix/utils/address.py:73-97 | `Northwest` gives `nw`; `Ave.` gives `ave` |
| Address.SecondaryNormalized | helix/utils/address.py:135-148 | the text of the unit designator, lower-cased, without `.`, with every unit word replaced; the result is lower-case and has no `.` |
| Address.NormalizeSecondary | helix/utils/address.py:135-148 | the method with its loop computes `SecondaryNormalized`; the result is lower-case and has no `.` |
| Address.SecondaryWords | helix/utils/address.py:135-148 | every unit word of the table gives its abbreviation: apartment → apt, building → bldg, floor → fl, suite → ste, room → rm, department → dept |
| Address.ExampleSecondary | helix/utils/address.py:135-148 | `Suite` gives `ste` |
| Address.ExampleSecondaryInsideWord | helix/utils/address.py:145-146 | `broom` becomes `brm`: unit words are replaced inside other words |
| Address.SecondaryPassThrough | helix/utils/address.py:135-148 | text containing no unit word is only lower-cased and stripped of dots |
| Address.Cleaned | helix/utils/address.py:166-171 | after the `replacements` loop the line holds no U+FFFD |
| Address.TaggerInput | helix/utils/address.py:174-179 | the text handed to the tagger: the cleaned first line, then a space and the second line when there is one |
| Address.NormalizedAddress | helix/utils/address.py:150-227 | `None` exactly for an empty first line; otherwise lower-case with no whitespace at either end; when the tagger tags the text, the formatter's form of `Assembled` over its components, lower-cased and stripped; when the tagger raises, the cleaned first line, lower-cased and stripped, whatever the second line |
| Address.NormalizeAddressStr | helix/utils/address.py:150-227 | the method computes `NormalizedAddress` |
| Address.AssembleComponents | helix/utils/address.py:190-222 | the nine blocks build `Assembled` over the labels in their fixed order |
| Address.AppendStreetBlocks | helix/utils/address.py:196-210 | the four street blocks extend the line assembled over the address number to the line assembled over the street components |
| Address.AppendUnitBlocks | helix/utils/address.py:212-222 | the four unit blocks extend it to the line assembled over every component |
| Address.AppendComponent | helix/utils/address.py:196-222 | one later block extends the assembled line by its label |
| Address.NormalizeComponent | helix/utils/address.py:192-222 | which normaliser each block applies: the street-number normaliser for the address number and the two identifiers, the direction normaliser for both directionals, the post-type normaliser, the unit-word normaliser for both unit types, and none for the street name |
| Address.Parts | helix/utils/address.py:190-222 | the normalised values of the tagged labels, in block order |
| Address.Line | helix/utils/address.py:190-222 | the parts joined by single spaces, with a leading space when there is no address number |
| Address.Assembled | helix/utils/address.py:190-222 | the line the nine blocks build, before the street-type formatter |
| Address.OrderStep | helix/utils/address.py:196-222 | the block of a tagged label appends one space and its normalised value; the block of an absent label changes nothing |
| Address.PartsInOrder | helix/utils/address.py:190-222 | two tagged components appear in the parts in the order of their blocks, each with its normalised value |
| Address.PartsFrom | helix/utils/address.py:190-222 | every part is the normalised value of some tagged component |
| Address.PartsPerComponent | helix/utils/address.py:190-222 | there is exactly one part per tagged component: absent labels contribute nothing |
| Address.StreetNameVerbatim | helix/utils/address.py:200-201 | the street name appears in the parts exactly as tagged |
| Address.AssembledSplits | helix/utils/address.py:190-222 | the parts are separated by single spaces: with an address number and no space inside a part, splitting the line on spaces gives back the parts; without a number there is one extra leading empty piece |
| Address.NormalizePostalCode | helix/utils/address.py:229-238 | the result is at least 5 long; it ends in the stripped input, preceded only by `0`s; a stripped input of 5 or more is unchanged; a shorter one is padded to exactly 5 |
| Address.PostalCodeValue | helix/utils/address.py:235-237 | padding only adds leading zeros: without them the result equals the stripped input without them |
| Address.PostalCodeIdempotent | helix/utils/address.py:229-238 | normalising a postal code twice gives the same result as once |
| Address.PaddedToFive | helix/utils/address.py:233-237 | a stripped code of four characters, such as `5720`, gets one `0` in front |
| States.NormalizeState | helix/utils/address.py:240-250 | at most two characters are upper-cased; a longer value whose capitalised form is in `StateMap` gives that entry's code; any other longer value is returned unchanged |
| States.StateMapEntries | helix/utils/address.py:13-71 | over all 57 entries of the table, every value is a two-letter upper-case code, only `New York` maps to `NY`, and `New york` is not a key |
| States.StateMapFacts | helix/utils/address.py:13-71 | every code in the state table is two upper-case letters, and only `New York` maps to `NY` |
| States.StateNewYork | helix/utils/address.py:240-250 | the result is `NY` exactly when the input is a two-character `ny` in any case |
| States.StateIdempotent | helix/utils/address.py:240-250 | normalising any state value twice gives the same result as once: a recognised name gives a code that is its own normal form, and an unrecognised long value passes through |
| States.StateCaseless | helix/utils/address.py:244-246 | above two characters, two spellings that differ only in case give the same result when either matches an entry |
| States.ExampleState | helix/utils/address.py:240-250 | `VERMONT` gives `VT`; `vt` gives `VT`; `New York` is returned unchanged |
| HelixUtils.MappingEntry | helix/helix_utils.py:22-25 | the entry has exactly the keys `to_field`, `to_table_name` and `from_field`, holding the target field, `PropertyState` and the source column |
| HelixUtils.MappingEntryInjective | helix/helix_utils.py:22-25 | two entries are equal exactly when their target fields and their source columns are equal |
| HelixUtils.ExampleMappingEntry | helix/tests/test_utils.py:8-11 | the entry for `to` and `from` is the one the unit test expects |
| HelixUtils.ScoreValue | helix/helix_utils.py:267-275 | a `metric` score is returned unchanged; for a rating, 1 gives `TRUE`, 0 gives `FALSE`, text gives its stripped, upper-cased self, and `AttributeError` comes exactly from a number other than 0 and 1; every rating value is upper-case text with no whitespace at either end |
| HelixUtils.ScoreValueIdempotent | helix/helix_utils.py:270-275 | cleaning a cleaned rating again changes nothing |
| HelixUtils.ScoreValueBlank | helix/helix_utils.py:274-275 | a rating of only whitespace becomes the empty text |
| HelixUtils.ExampleScoreValue | helix/helix_utils.py:267-275 | the number 1 and the text ` true ` both give `TRUE`; 0 gives `FALSE`; the text `1` stays `1`; the rating 7 raises; the metric 7 is kept |

## Left out

- The tagger `usaddress.tag` and the formatter
  `StreetAddressFormatter.abbrev_street_avenue_etc` are external libraries.
  Both are function parameters of the assembler. Their internals, and the
  `CornerOf` → `AddressNumber` tag mapping handed to the tagger, are not
  modelled.
- The Python 2 `unicode(...).encode('utf-8')` step is not modelled. Neither
  are the `str()` conversions or where `UnicodeEncodeError` comes from.
  Strings are character sequences, and the tagger's outcome may be either of
  the two exceptions the code catches.
- A `None` line or label value: the model has strings only. A label whose
  value is `None` is treated as absent.
- The `print addr` call and the unused `extra_data` parameter.
- Dict iteration order: Python 2 dicts have none. `secondary_map` and
  `replacements` are applied in the order they are written. Nothing is
  claimed about order independence.
- NormalizePostalCode: `zfill`'s handling of a leading `+` or `-` is not
  modelled; padding is plain zero-filling on the left. `str()` of a
  non-string postal code is not modelled either; the input is a string.
- Case mapping covers ASCII letters only, as in Python 2 `str`. Other
  characters keep their case.
- ScoreValue: floats are not modelled. A score is an integer (a boolean is
  0 or 1) or text. `value in [0, 1]` on a float such as `1.0` is not covered.
- NormalizedAddress: idempotence (normalising a normalised address gives it
  back) and equal keys for spellings that differ only in case or
  abbreviation (`123 Main Street` and `123 MAIN ST`) are not proved. Both
  depend on what the tagger and the street-type formatter do, and those are
  parameters here, free to be any functions.
- SecondaryNormalized: idempotence is not claimed. Replacing one unit word could, in
  principle, produce the text of another.
- Cleaned: the model does not claim the text `\uFFFD` is absent afterwards.
  A single left-to-right `replace` pass can leave a new occurrence formed
  across a removed one.
- `helix_csv_upload`, `helix_hes_upload` and `test_date_format` in
  `helix/helix_utils.py` are not modelled. They are ORM, SOAP and CSV work,
  and `datetime.strptime` parsing.
- The property matcher is not part of this model. It is ORM queries against
  the property store, and its code is not among the files modelled.
