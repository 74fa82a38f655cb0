/** `STATE_MAP` and `normalize_state` of `helix/utils/address.py`. */
module States {
  import opened Strings

  /** `STATE_MAP`: full state and territory names, as capitalised in the
      source, to their two-letter codes. It is written as the union of eight
      runs of its entries, in the order of the source, so that facts about
      every entry can be proved run by run. */
  const StateMap: map<string, string> :=
    StateRun0 + StateRun1 + StateRun2 + StateRun3 + StateRun4 + StateRun5 + StateRun6 + StateRun7

  const StateRun0: map<string, string> := map[
    "Alaska" := "AK", "Alabama" := "AL", "Arkansas" := "AR", "American Samoa" := "AS",
    "Arizona" := "AZ", "California" := "CA", "Colorado" := "CO", "Connecticut" := "CT"]
  const StateRun1: map<string, string> := map[
    "District of Columbia" := "DC", "Delaware" := "DE", "Florida" := "FL", "Georgia" := "GA",
    "Guam" := "GU", "Hawaii" := "HI", "Iowa" := "IA", "Idaho" := "ID"]
  const StateRun2: map<string, string> := map[
    "Illinois" := "IL", "Indiana" := "IN", "Kansas" := "KS", "Kentucky" := "KY",
    "Louisiana" := "LA", "Massachusetts" := "MA", "Maryland" := "MD", "Maine" := "ME"]
  const StateRun3: map<string, string> := map[
    "Michigan" := "MI", "Minnesota" := "MN", "Missouri" := "MO", "Northern Mariana Islands" := "MP",
    "Mississippi" := "MS", "Montana" := "MT", "National" := "NA", "North Carolina" := "NC"]
  const StateRun4: map<string, string> := map[
    "North Dakota" := "ND", "Nebraska" := "NE", "New Hampshire" := "NH", "New Jersey" := "NJ",
    "New Mexico" := "NM", "Nevada" := "NV", "New York" := "NY", "Ohio" := "OH"]
  const StateRun5: map<string, string> := map[
    "Oklahoma" := "OK", "Oregon" := "OR", "Pennsylvania" := "PA", "Puerto Rico" := "PR",
    "Rhode Island" := "RI", "South Carolina" := "SC", "South Dakota" := "SD", "Tennessee" := "TN"]
  const StateRun6: map<string, string> := map[
    "Texas" := "TX", "Utah" := "UT", "Virginia" := "VA", "Virgin Islands" := "VI",
    "Vermont" := "VT", "Washington" := "WA", "Wisconsin" := "WI", "West Virginia" := "WV"]
  const StateRun7: map<string, string> := map[
    "Wyoming" := "WY"]

  /** `normalize_state`: a value of at most two characters is upper-cased;
      a longer one is looked up, capitalised, in `StateMap`, and kept as it
      is when it is not there. */
  function NormalizeState(state: string): (r: string)
    ensures |state| <= 2 ==> r == Upper(state)
    ensures |state| > 2 && Capitalize(state) in StateMap ==> r == StateMap[Capitalize(state)]
    ensures |state| > 2 && Capitalize(state) !in StateMap ==> r == state
  {
    if |state| > 2 then
      if Capitalize(state) in StateMap then StateMap[Capitalize(state)] else state
    else Upper(state)
  }

  /** Two upper-case letters. */
  predicate IsStateCode(v: string) {
    |v| == 2 && IsUpperChar(v[0]) && IsUpperChar(v[1])
  }

  lemma StateRun0Facts()
    ensures StateEntries(StateRun0)
  {
  }

  lemma StateRun1Facts()
    ensures StateEntries(StateRun1)
  {
  }

  lemma StateRun2Facts()
    ensures StateEntries(StateRun2)
  {
  }

  lemma StateRun3Facts()
    ensures StateEntries(StateRun3)
  {
  }

  lemma StateRun4Facts()
    ensures StateEntries(StateRun4)
  {
  }

  lemma StateRun5Facts()
    ensures StateEntries(StateRun5)
  {
  }

  lemma StateRun6Facts()
    ensures StateEntries(StateRun6)
  {
  }

  lemma StateRun7Facts()
    ensures StateEntries(StateRun7)
  {
  }

  /** A table whose values are all two-letter codes, where only `New York`
      gives `NY` and `New york` is not a key. */
  ghost predicate StateEntries(m: map<string, string>) {
    && (forall kv | kv in m.Items :: IsStateCode(kv.1) && (kv.1 == "NY" ==> kv.0 == "New York"))
    && "New york" !in m
  }

  lemma StateEntriesMerge(a: map<string, string>, b: map<string, string>)
    requires StateEntries(a) && StateEntries(b)
    ensures StateEntries(a + b)
  {
    forall kv | kv in (a + b).Items
      ensures kv in a.Items || kv in b.Items
    {
      assert kv.0 in a + b && (a + b)[kv.0] == kv.1;
      if kv.0 in b {
        assert (kv.0, b[kv.0]) in b.Items;
      } else {
        assert (kv.0, a[kv.0]) in a.Items;
      }
    }
  }

  /** The entry for `k` is one of the items of `m`. */
  lemma EntryIsItem(m: map<string, string>, k: string)
    requires k in m
    ensures (k, m[k]) in m.Items
  {
  }

  /** What the eight runs say of their entries holds for the whole table. */
  lemma StateMapEntries()
    ensures StateEntries(StateMap)
  {
    StateRun0Facts();
    StateRun1Facts();
    StateRun2Facts();
    StateRun3Facts();
    StateRun4Facts();
    StateRun5Facts();
    StateRun6Facts();
    StateRun7Facts();
    StateEntriesMerge(StateRun0, StateRun1);
    StateEntriesMerge(StateRun0 + StateRun1, StateRun2);
    StateEntriesMerge(StateRun0 + StateRun1 + StateRun2, StateRun3);
    StateEntriesMerge(StateRun0 + StateRun1 + StateRun2 + StateRun3, StateRun4);
    StateEntriesMerge(StateRun0 + StateRun1 + StateRun2 + StateRun3 + StateRun4, StateRun5);
    StateEntriesMerge(StateRun0 + StateRun1 + StateRun2 + StateRun3 + StateRun4 + StateRun5, StateRun6);
    StateEntriesMerge(StateRun0 + StateRun1 + StateRun2 + StateRun3 + StateRun4 + StateRun5 + StateRun6, StateRun7);
  }

  /** Every entry of `StateMap` gives a state code, and only `New York` gives `NY`. */
  lemma StateMapFacts(k: string)
    requires k in StateMap
    ensures IsStateCode(StateMap[k])
    ensures StateMap[k] == "NY" ==> k == "New York"
  {
    StateMapEntries();
    EntryIsItem(StateMap, k);
  }

  /** `New York` capitalised is not an entry. */
  lemma NewYorkCapitalizedMissing()
    ensures "New york" !in StateMap
  {
    StateMapEntries();
  }

  /** Capitalising never gives a name with a capital after its first letter,
      so it never gives `New York`. */
  lemma CapitalizedNotNewYork(s: string)
    ensures Capitalize(s) != "New York"
  {
    if |s| == 8 {
      assert Capitalize(s)[4] == LowerChar(s[4]);
    }
  }

  /** Only a two-character spelling of `NY` normalises to `NY`: the capitalised
      lookup can never reach the entry `New York`. */
  lemma StateNewYork(s: string)
    ensures NormalizeState(s) == "NY" <==> Upper(s) == "NY"
  {
    if |s| > 2 && Capitalize(s) in StateMap {
      StateMapFacts(Capitalize(s));
      CapitalizedNotNewYork(s);
    }
  }

  /** A two-letter code normalises to itself. */
  lemma StateCodeFixed(v: string)
    requires IsStateCode(v)
    ensures NormalizeState(v) == v
  {
    assert forall c | c in v :: c == v[0] || c == v[1];
    UpperOfUpper(v);
  }

  /** Normalising a state twice is normalising it once: a matched name gives a
      code, which is its own normal form, and an unmatched long value is
      returned as it is. */
  lemma StateIdempotent(state: string)
    ensures NormalizeState(NormalizeState(state)) == NormalizeState(state)
  {
    if |state| > 2 {
      if Capitalize(state) in StateMap {
        StateMapFacts(Capitalize(state));
        StateCodeFixed(StateMap[Capitalize(state)]);
      }
    } else {
      UpperOfUpper(Upper(state));
    }
  }

  /** Above two characters the lookup ignores case. */
  lemma StateCaseless(s: string, t: string)
    requires |s| > 2 && Lower(s) == Lower(t) && Capitalize(s) in StateMap
    ensures NormalizeState(s) == NormalizeState(t)
  {
    CapitalizeCaseless(s, t);
  }

  lemma CapitalizeNewYork()
    ensures Capitalize("New York") == "New york"
  {
    assert "New York"[1..] == "ew York";
    LowerEwYork();
    assert [UpperChar('N')] + "ew york" == "New york";
  }

  lemma LowerEwYork()
    ensures Lower("ew York") == "ew york"
  {
    var t := "ew York";
    forall i | 0 <= i < 7 ensures Lower(t)[i] == "ew york"[i] {
      assert Lower(t)[i] == LowerChar(t[i]);
    }
  }

  lemma CapitalizeVermont()
    ensures Capitalize("VERMONT") == "Vermont"
  {
    assert "VERMONT"[1..] == "ERMONT";
    LowerErmont();
    assert [UpperChar('V')] + "ermont" == "Vermont";
  }

  lemma LowerErmont()
    ensures Lower("ERMONT") == "ermont"
  {
    var t := "ERMONT";
    forall i | 0 <= i < 6 ensures Lower(t)[i] == "ermont"[i] {
      assert Lower(t)[i] == LowerChar(t[i]);
    }
  }

  lemma VermontEntry()
    ensures "Vermont" in StateMap && StateMap["Vermont"] == "VT"
  {
    VermontInRun();
    assert "Vermont" !in StateRun7;
  }

  lemma VermontInRun()
    ensures "Vermont" in StateRun6 && StateRun6["Vermont"] == "VT"
  {
  }

  /** A full name in any case becomes its code; a short code is upper-cased;
      a two-word name misses its entry and is kept. */
  lemma ExampleState()
    ensures NormalizeState("VERMONT") == "VT"
    ensures NormalizeState("vt") == "VT"
    ensures NormalizeState("New York") == "New York"
  {
    ExampleStateName();
    ExampleStateCode();
    ExampleStateNewYork();
  }

  lemma ExampleStateName()
    ensures NormalizeState("VERMONT") == "VT"
  {
    CapitalizeVermont();
    VermontEntry();
  }

  lemma ExampleStateCode()
    ensures NormalizeState("vt") == "VT"
  {
    assert Upper("vt") == "VT" by {
      assert Upper("vt")[0] == UpperChar('v');
      assert Upper("vt")[1] == UpperChar('t');
    }
  }

  lemma ExampleStateNewYork()
    ensures NormalizeState("New York") == "New York"
  {
    CapitalizeNewYork();
    NewYorkCapitalizedMissing();
  }
}
