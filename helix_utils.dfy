/** The two small helpers of `helix/helix_utils.py` that the upload code uses:
    building a column-mapping entry and cleaning a green-assessment score. */
module HelixUtils {
  import opened Strings

  // ---------------------------------------------------------------------------
  // mapping_entry

  /** `mapping_entry`: one entry of a column mapping, sending the column
      `fromField` of an upload to the field `toField` of `PropertyState`. */
  function MappingEntry(toField: string, fromField: string): (r: map<string, string>)
    ensures r.Keys == {"to_field", "to_table_name", "from_field"}
    ensures r["to_field"] == toField && r["from_field"] == fromField
    ensures r["to_table_name"] == "PropertyState"
  {
    map["to_field" := toField, "to_table_name" := "PropertyState", "from_field" := fromField]
  }

  /** Both fields can be read back from an entry, so distinct column pairs give
      distinct entries. */
  lemma MappingEntryInjective(to1: string, from1: string, to2: string, from2: string)
    ensures MappingEntry(to1, from1) == MappingEntry(to2, from2) <==> to1 == to2 && from1 == from2
  {
    if MappingEntry(to1, from1) == MappingEntry(to2, from2) {
      assert MappingEntry(to1, from1)["to_field"] == MappingEntry(to2, from2)["to_field"];
      assert MappingEntry(to1, from1)["from_field"] == MappingEntry(to2, from2)["from_field"];
    }
  }

  /** The entry the unit test expects for the columns `to` and `from`. */
  lemma ExampleMappingEntry()
    ensures MappingEntry("to", "from") ==
      map["to_field" := "to", "from_field" := "from", "to_table_name" := "PropertyState"]
  {
  }

  // ---------------------------------------------------------------------------
  // test_score_value

  /** A score value as it arrives from an upload: a number (a boolean counts
      as 0 or 1) or text. */
  datatype Score = Num(n: int) | Text(s: string)

  /** What `test_score_value` does: returns a value, or raises
      `AttributeError` when a number other than 0 or 1 reaches `strip()`. */
  datatype ScoreOutcome = Value(v: Score) | AttributeError

  /** `test_score_value`: a `metric` score is kept as it is; any other score
      is a rating, where 1 and 0 become `TRUE` and `FALSE` and text is stripped
      and upper-cased. */
  function ScoreValue(scoreType: string, value: Score): (r: ScoreOutcome)
    ensures scoreType == "metric" ==> r == Value(value)
    ensures r.AttributeError? <==> scoreType != "metric" && value.Num? && value.n != 0 && value.n != 1
    ensures scoreType != "metric" && r.Value? ==> r.v.Text? && IsUpperStr(r.v.s) && IsStripped(r.v.s)
    ensures scoreType != "metric" && value == Num(1) ==> r == Value(Text("TRUE"))
    ensures scoreType != "metric" && value == Num(0) ==> r == Value(Text("FALSE"))
    ensures scoreType != "metric" && value.Text? ==> r == Value(Text(Upper(Strip(value.s))))
  {
    if scoreType == "metric" then Value(value)
    else
      match value
      case Num(n) =>
        if n == 1 then Value(Text("TRUE"))
        else if n == 0 then Value(Text("FALSE"))
        else AttributeError
      case Text(s) =>
        StripOfUpper(Strip(s));
        Value(Text(Upper(Strip(s))))
  }

  /** Upper-casing keeps every character's whiteness, so it keeps a stripped
      string stripped. */
  lemma StripOfUpper(s: string)
    requires IsStripped(s)
    ensures IsStripped(Upper(s))
  {
  }

  /** A cleaned rating is cleaned again to itself. */
  lemma ScoreValueIdempotent(scoreType: string, value: Score)
    requires scoreType != "metric" && ScoreValue(scoreType, value).Value?
    ensures ScoreValue(scoreType, ScoreValue(scoreType, value).v) == ScoreValue(scoreType, value)
  {
    var r := ScoreValue(scoreType, value).v.s;
    UpperOfUpper(r);
  }

  /** A rating of nothing but whitespace is cleaned to the empty text. */
  lemma ScoreValueBlank(scoreType: string, s: string)
    requires scoreType != "metric" && forall c | c in s :: IsSpace(c)
    ensures ScoreValue(scoreType, Text(s)) == Value(Text(""))
  {
  }

  lemma StripTrue()
    ensures Strip(" true ") == "true"
  {
    assert " " + "true" + " " == " true ";
    StripPadded("true");
  }

  lemma UpperTrue()
    ensures Upper("true") == "TRUE"
  {
    var u := Upper("true");
    assert u[0] == 'T' && u[1] == 'R' && u[2] == 'U' && u[3] == 'E';
  }

  lemma UpperOne()
    ensures Upper("1") == "1"
  {
    assert Upper("1")[0] == UpperChar('1');
  }

  /** The numeric flags 1 and 0 and their text forms agree; the text `1` is not
      the number 1. */
  lemma ExampleScoreValue()
    ensures ScoreValue("rating", Num(1)) == Value(Text("TRUE"))
    ensures ScoreValue("rating", Text(" true ")) == Value(Text("TRUE"))
    ensures ScoreValue("rating", Num(0)) == Value(Text("FALSE"))
    ensures ScoreValue("rating", Text("1")) == Value(Text("1"))
    ensures ScoreValue("rating", Num(7)) == AttributeError
    ensures ScoreValue("metric", Num(7)) == Value(Num(7))
  {
    ExampleScoreTrue();
    ExampleScoreTextOne();
  }

  lemma ExampleScoreTrue()
    ensures ScoreValue("rating", Text(" true ")) == Value(Text("TRUE"))
  {
    StripTrue();
    UpperTrue();
  }

  lemma ExampleScoreTextOne()
    ensures ScoreValue("rating", Text("1")) == Value(Text("1"))
  {
    assert IsStripped("1");
    UpperOne();
  }
}
