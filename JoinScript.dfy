/**
  The script body of `joiningTables.py` as the step-by-step updates it performs on the two
  DataFrame objects and on the joined one. Each method is proved to leave the objects in
  the state the corresponding function of `AstronautJoin` describes.
*/
module JoinScript {
  import opened Wrappers
  import opened Frame
  import opened NameKey
  import opened BirthPlace
  import opened AstronautJoin

  /** `df['first_last'] = df['Name'].apply(get_first_last_name)`: false, with the object left
      alone, when there is no `Name` column (the KeyError). */
  method AddKey(df: DataFrame) returns (ok: bool)
    requires df.Valid()
    modifies df
    ensures ok <==> "Name" in old(df.columns)
    ensures ok ==> df.Valid() && df.Value() == WithKey(old(df.Value())).value
    ensures !ok ==> df.Value() == old(df.Value())
  {
    var names := Column(df.Value(), "Name");
    if names.Failure? {
      return false;
    }
    df.Assign("first_last", Apply(names.value, KeyCell));
    ok := true;
  }

  /** `if 'Birth Place' in df.columns: df['Birth Place'] = ...apply(...)` */
  method RewriteStates(df: DataFrame, table: map<string, string>)
    requires df.Valid()
    modifies df
    ensures df.Valid() && df.Value() == WithStates(old(df.Value()), table)
  {
    if "Birth Place" in df.columns {
      var places := Column(df.Value(), "Birth Place").value;
      df.Assign("Birth Place", Apply(places, c => ExtractState(c, table)));
    }
  }

  /** Lines 91-101: drop the key, then the scraped name and gender where present. */
  method DropDuplicates(joined: DataFrame)
    requires joined.Valid() && "first_last" in joined.columns
    modifies joined
    ensures joined.Valid() && joined.Value() == DropStage(old(joined.Value()))
  {
    joined.Drop(["first_last"]);
    ghost var a := joined.Value();
    var toDrop: seq<string> := [];
    if "Name_scrape" in joined.columns {
      toDrop := toDrop + ["Name_scrape"];
    }
    if "Gender_scrape" in joined.columns {
      toDrop := toDrop + ["Gender_scrape"];
    }
    assert toDrop == ScrapeDrops(a.columns);
    if toDrop != [] {
      joined.Drop(toDrop);
    }
  }

  /** Lines 103-111: rename the database name and gender where present; false when the new
      labels would clash. */
  method RenameDb(joined: DataFrame) returns (ok: bool)
    requires joined.Valid()
    modifies joined
    ensures ok <==> RenameStage(old(joined.Value())).Success?
    ensures ok ==> joined.Valid() && joined.Value() == RenameStage(old(joined.Value())).value
  {
    ghost var b := joined.Value();
    var renames: map<string, string> := map[];
    if "Name_db" in joined.columns {
      renames := renames["Name_db" := "Name"];
    }
    if "Gender_db" in joined.columns {
      renames := renames["Gender_db" := "Gender"];
    }
    assert renames == DbRenames(b.columns);
    if !Distinct(RenameAll(joined.columns, renames)) {
      return false;
    }
    if renames != map[] {
      joined.Rename(renames);
    } else {
      assert RenameAll(b.columns, renames) == b.columns;
    }
    ok := true;
  }

  /** Lines 115-117: `fillna(0)`, `replace('', 0)` and the whitespace `replace`, one pass
      each. */
  method FillZeros(joined: DataFrame)
    requires joined.Valid()
    modifies joined
    ensures joined.Valid() && joined.Value() == MapCells(old(joined.Value()), CleanCell)
  {
    ghost var c := joined.Value();
    joined.Map(x => FillCell(x, Num(0)));
    joined.Map(x => ReplaceCell(x, Str(""), Num(0)));
    MapCellsTwice(c, x => FillCell(x, Num(0)), x => ReplaceCell(x, Str(""), Num(0)),
                  x => ReplaceCell(FillCell(x, Num(0)), Str(""), Num(0)));
    joined.Map(x => BlankCell(x, Num(0)));
    MapCellsTwice(c, x => ReplaceCell(FillCell(x, Num(0)), Str(""), Num(0)), x => BlankCell(x, Num(0)), CleanCell);
  }

  /** Lines 91-117 on the joined object: false when the renamed labels would clash. */
  method CleanJoined(joined: DataFrame) returns (ok: bool)
    requires joined.Valid() && "first_last" in joined.columns
    modifies joined
    ensures ok <==> Cleanup(old(joined.Value())).Success?
    ensures ok ==> joined.Valid() && joined.Value() == Cleanup(old(joined.Value())).value
  {
    DropDuplicates(joined);
    ok := RenameDb(joined);
    if ok {
      FillZeros(joined);
    }
  }

  /** Lines 77-84 on both tables: the key column and the rewritten birthplaces; false,
      before anything else changes, at the first table without a `Name` column. */
  method PrepareTables(df1: DataFrame, df2: DataFrame, table: map<string, string>) returns (ok: bool)
    requires df1 != df2 && df1.Valid() && df2.Valid()
    modifies df1, df2
    ensures ok <==> "Name" in old(df1.columns) && "Name" in old(df2.columns)
    ensures df1.Valid() && df2.Valid()
    ensures "Name" !in old(df1.columns) ==> df1.Value() == old(df1.Value()) && df2.Value() == old(df2.Value())
    ensures "Name" in old(df1.columns) && "Name" !in old(df2.columns) ==>
      df1.Value() == WithKey(old(df1.Value())).value && df2.Value() == old(df2.Value())
    ensures ok ==> df1.Value() == Prepare(old(df1.Value()), table).value && df2.Value() == Prepare(old(df2.Value()), table).value
  {
    ok := AddKey(df1);
    if !ok {
      return;
    }
    ok := AddKey(df2);
    if !ok {
      return;
    }
    RewriteStates(df1, table);
    RewriteStates(df2, table);
  }

  /** The script on the database table `df1` and the scraped table `df2`: the joined table
      `Pipeline` gives, or its error. The inputs are updated in place as the script updates
      them, up to the step that fails. */
  method JoinAstronauts(df1: DataFrame, df2: DataFrame, table: map<string, string>) returns (r: Result<DataFrame, FrameError>)
    requires df1 != df2 && df1.Valid() && df2.Valid()
    modifies df1, df2
    ensures var p := Pipeline(old(df1.Value()), old(df2.Value()), table);
      && (r.Failure? <==> p.Failure?)
      && (r.Failure? ==> r.error == p.error)
      && (r.Success? ==> fresh(r.value) && r.value.Valid() && r.value.Value() == p.value)
    ensures "Name" !in old(df1.columns) ==> df1.Value() == old(df1.Value()) && df2.Value() == old(df2.Value())
    ensures "Name" in old(df1.columns) && "Name" !in old(df2.columns) ==>
      df1.Value() == WithKey(old(df1.Value())).value && df2.Value() == old(df2.Value())
    ensures "Name" in old(df1.columns) && "Name" in old(df2.columns) ==>
      df1.Value() == Prepare(old(df1.Value()), table).value && df2.Value() == Prepare(old(df2.Value()), table).value
  {
    var ok := PrepareTables(df1, df2, table);
    if !ok {
      return Failure(KeyError("Name"));
    }
    var m := Merge(df1.Value(), df2.Value(), "first_last", "_db", "_scrape");
    if m.Failure? {
      return Failure(m.error);
    }
    KeyInMerged(df1.columns, df2.columns, "first_last", "_db", "_scrape");
    var joined := new DataFrame(m.value);
    ok := CleanJoined(joined);
    if !ok {
      return Failure(DuplicateLabels);
    }
    return Success(joined);
  }
}
