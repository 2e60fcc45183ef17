/**
  `extract_state_from_birth_place`: reduces a free-text birthplace to its last
  comma-separated segment and spells out a U.S. postal abbreviation (50 states and the
  District of Columbia) as the full name. Cells that are not strings pass through.
*/
module BirthPlace {
  import opened Wrappers
  import opened PyStr
  import opened Frame

  /** Postal abbreviation to full name, as the script defines it. The functions below take
      the table as a parameter, so that what is proved of them holds for any table; the
      script passes this one. */
  const Abbreviations: map<string, string> := map[
    "AL" := "Alabama", "AK" := "Alaska", "AZ" := "Arizona", "AR" := "Arkansas", "CA" := "California",
    "CO" := "Colorado", "CT" := "Connecticut", "DE" := "Delaware", "FL" := "Florida", "GA" := "Georgia",
    "HI" := "Hawaii", "ID" := "Idaho", "IL" := "Illinois", "IN" := "Indiana", "IA" := "Iowa",
    "KS" := "Kansas", "KY" := "Kentucky", "LA" := "Louisiana", "ME" := "Maine", "MD" := "Maryland",
    "MA" := "Massachusetts", "MI" := "Michigan", "MN" := "Minnesota", "MS" := "Mississippi", "MO" := "Missouri",
    "MT" := "Montana", "NE" := "Nebraska", "NV" := "Nevada", "NH" := "New Hampshire", "NJ" := "New Jersey",
    "NM" := "New Mexico", "NY" := "New York", "NC" := "North Carolina", "ND" := "North Dakota", "OH" := "Ohio",
    "OK" := "Oklahoma", "OR" := "Oregon", "PA" := "Pennsylvania", "RI" := "Rhode Island", "SC" := "South Carolina",
    "SD" := "South Dakota", "TN" := "Tennessee", "TX" := "Texas", "UT" := "Utah", "VT" := "Vermont",
    "VA" := "Virginia", "WA" := "Washington", "WV" := "West Virginia", "WI" := "Wisconsin", "WY" := "Wyoming",
    "DC" := "District of Columbia"
  ]

  /** The full name for text whose uppercase form is an abbreviation in `table`. */
  function StateName(x: string, table: map<string, string>): (r: Option<string>)
    ensures r.Some? <==> Upper(x) in table
    ensures r.Some? ==> r.value == table[Upper(x)]
  {
    if Upper(x) in table then Some(table[Upper(x)]) else None
  }

  /** The full state name for `x` when it is an abbreviation, and `fallback` otherwise. */
  function Spelled(x: string, fallback: string, table: map<string, string>): (r: string)
    ensures Upper(x) in table ==> r == table[Upper(x)]
    ensures Upper(x) !in table ==> r == fallback
  {
    match StateName(x, table)
    case Some(full) => full
    case None => fallback
  }

  /** `[part.strip() for part in parts]` */
  function StripAll(parts: seq<string>): (r: seq<string>)
    ensures |r| == |parts|
    ensures forall i {:trigger r[i]} :: 0 <= i < |parts| ==> r[i] == Strip(parts[i])
  {
    if parts == [] then [] else [Strip(parts[0])] + StripAll(parts[1..])
  }

  /** The birthplace as the script rewrites it: cells that are not strings pass through. */
  function ExtractState(place: Cell, table: map<string, string>): (r: Cell)
    ensures !place.Str? ==> r == place
    ensures place.Str? ==> r == Str(ExtractText(place.s, table))
  {
    if !place.Str? then place else Str(ExtractText(place.s, table))
  }

  /** A birthplace string as the script rewrites it. With a comma, the result is the trimmed
      text after the last comma, or its full state name when that text is an abbreviation in
      any case; without one, the full state name when the trimmed text is an abbreviation,
      and otherwise the text exactly as given, untrimmed. */
  function ExtractText(s: string, table: map<string, string>): (r: string)
    ensures ',' in s ==> var seg := Strip(AfterLast(s, ',')); r == Spelled(seg, seg, table)
    ensures ',' !in s ==> r == Spelled(Strip(s), s, table)
  {
    var pieces := SplitOn(s, ',');
    SplitOnPieces(s, ',');
    var parts := StripAll(pieces);
    if |parts| >= 2 then
      var statePart := Strip(parts[|parts| - 1]);
      SplitOnLast(s, ',');
      StripIdempotent(AfterLast(s, ','));
      Spelled(statePart, statePart, table)
    else
      var cleaned := Strip(s);
      Spelled(cleaned, s, table)
  }

  /** "City,State": the state part is trimmed and looked up, whatever the city holds. */
  lemma CityAndState(city: string, state: string, table: map<string, string>)
    requires ',' !in state
    ensures ExtractText(city + "," + state, table) == Spelled(Strip(state), Strip(state), table)
  {
    var s := city + "," + state;
    assert s == city + [','] + state;
    AfterLastJoin(city, ',', state);
    assert s[|city|] == ',';
  }

  /** Every rewritten birthplace is a full name from the table, the trimmed text after the
      last comma, or the original text when it holds no comma. */
  lemma ResultKinds(s: string, table: map<string, string>)
    ensures var r := ExtractText(s, table);
      || r in table.Values
      || (',' in s && r == Strip(AfterLast(s, ',')))
      || (',' !in s && r == s)
  {
    var x := if ',' in s then Strip(AfterLast(s, ',')) else Strip(s);
    if Upper(x) in table {
      assert table[Upper(x)] in table.Values;
    }
  }

  /** The lookup ignores case: lower-casing the text does not change the state found. */
  lemma LookupIgnoresCase(x: string, table: map<string, string>)
    ensures StateName(AsciiLower(x), table) == StateName(x, table)
  {
    UpperOfLower(x);
  }

  /** Whitespace padding adds no comma. */
  lemma NoCommaPadded(before: string, w: string, after: string)
    requires AllSpace(before) && AllSpace(after) && ',' !in w
    ensures ',' !in before + w + after
  {
    assert !IsSpace(',');
  }

  /** "TX" and "tx" are both spelled out as "Texas". */
  lemma Texas(fallback: string)
    ensures Spelled("TX", fallback, Abbreviations) == "Texas"
    ensures Spelled("tx", fallback, Abbreviations) == "Texas"
  {
    assert Upper("TX") == "TX";
    assert Upper("tx") == "TX";
  }

  /** "Houston, TX", or any other place followed by a comma and "TX" with any whitespace
      around it, becomes "Texas". */
  lemma StateAfterComma(place: string, before: string, after: string)
    requires AllSpace(before) && AllSpace(after)
    ensures ExtractState(Str(place + "," + (before + "TX" + after)), Abbreviations) == Str("Texas")
  {
    var state := before + "TX" + after;
    StripPadded(before, "TX", after);
    Texas("TX");
    NoCommaPadded(before, "TX", after);
    CityAndState(place, state, Abbreviations);
  }

  /** A lower-case abbreviation on its own, "tx", also becomes "Texas", whatever whitespace
      surrounds it. */
  lemma LowerCaseAbbreviation(before: string, after: string)
    requires AllSpace(before) && AllSpace(after)
    ensures ExtractState(Str(before + "tx" + after), Abbreviations) == Str("Texas")
  {
    StripPadded(before, "tx", after);
    Texas(before + "tx" + after);
    NoCommaPadded(before, "tx", after);
  }

  /** Without a comma, text that is no abbreviation comes back untrimmed: " Ohio " stays
      " Ohio ", padding included. */
  lemma UnknownKeptUntrimmed(before: string, after: string, table: map<string, string>)
    requires AllSpace(before) && AllSpace(after)
    requires "OHIO" !in table
    ensures ExtractState(Str(before + "Ohio" + after), table) == Str(before + "Ohio" + after)
  {
    StripPadded(before, "Ohio", after);
    NoCommaPadded(before, "Ohio", after);
    assert Upper("Ohio") == "OHIO";
  }
}
