/**
  The join script of `joiningTables.py`: both astronaut tables get a `first_last` key, their
  `Birth Place` cells are rewritten where the column exists, the tables are inner-joined on
  the key with the suffixes `_db` (left, the database) and `_scrape` (right, the scraped
  table), and the result is cleaned: the key and the scraped name and gender are dropped,
  the database name and gender take the plain labels, and missing, empty and
  whitespace-only cells become 0. `Pipeline` is the value the script computes;
  `JoinAstronauts` performs the same steps on `DataFrame` objects.
*/
module AstronautJoin {
  import opened Wrappers
  import opened PyStr
  import opened Frame
  import opened NameKey
  import opened BirthPlace

  // ---------------------------------------------------------------------------
  // Preparing each table
  // ---------------------------------------------------------------------------

  /** The labels of a table once `first_last` has been assigned. */
  function Keyed(cols: seq<string>): seq<string> {
    if "first_last" in cols then cols else cols + ["first_last"]
  }

  /** `df['first_last'] = df['Name'].apply(get_first_last_name)`: KeyError when the table has
      no `Name` column; otherwise the key column, computed row by row, and nothing else
      changed. */
  function WithKey(t: Table): (r: Result<Table, FrameError>)
    requires WellFormed(t)
    ensures r.Failure? <==> "Name" !in t.columns
    ensures r.Failure? ==> r.error == KeyError("Name")
    ensures r.Success? ==> WellFormed(r.value) && r.value.columns == Keyed(t.columns) && |r.value.rows| == |t.rows|
    ensures r.Success? ==> forall k :: 0 <= k < |t.rows| ==>
      At(r.value, k, "first_last") == KeyCell(At(t, k, "Name"))
    ensures r.Success? ==> forall k, c :: 0 <= k < |t.rows| && c in t.columns && c != "first_last" ==>
      At(r.value, k, c) == At(t, k, c)
  {
    match Column(t, "Name")
    case Failure(e) => Failure(e)
    case Success(names) => Success(WithColumn(t, "first_last", Apply(names, KeyCell)))
  }

  /** A cell of column `c` after the birthplace step. */
  function Prep(c: string, x: Cell, table: map<string, string>): Cell {
    if c == "Birth Place" then ExtractState(x, table) else x
  }

  /** `if 'Birth Place' in df.columns: df['Birth Place'] = df['Birth Place'].apply(...)`: the
      birthplace cells are rewritten when the column exists, and every other cell is kept. */
  function WithStates(t: Table, table: map<string, string>): (r: Table)
    requires WellFormed(t)
    ensures WellFormed(r) && r.columns == t.columns && |r.rows| == |t.rows|
    ensures "Birth Place" !in t.columns ==> r == t
    ensures forall k, c :: 0 <= k < |t.rows| && c in t.columns ==> At(r, k, c) == Prep(c, At(t, k, c), table)
  {
    if "Birth Place" in t.columns then
      WithColumn(t, "Birth Place", Apply(Column(t, "Birth Place").value, c => ExtractState(c, table)))
    else t
  }

  // ---------------------------------------------------------------------------
  // Cleaning the joined table
  // ---------------------------------------------------------------------------

  /** The scraped duplicates the script drops, each only when it is present. */
  function ScrapeDrops(cols: seq<string>): (r: seq<string>)
    ensures forall c :: c in r <==> c in cols && (c == "Name_scrape" || c == "Gender_scrape")
  {
    (if "Name_scrape" in cols then ["Name_scrape"] else [])
    + (if "Gender_scrape" in cols then ["Gender_scrape"] else [])
  }

  /** The database columns the script renames, each only when it is present. */
  function DbRenames(cols: seq<string>): (r: map<string, string>)
    ensures forall c :: c in r <==> c in cols && (c == "Name_db" || c == "Gender_db")
    ensures "Name_db" in r ==> r["Name_db"] == "Name"
    ensures "Gender_db" in r ==> r["Gender_db"] == "Gender"
  {
    var r := if "Name_db" in cols then map["Name_db" := "Name"] else map[];
    if "Gender_db" in cols then r["Gender_db" := "Gender"] else r
  }

  /** Lines 91-101: the key is dropped, then the scraped name and gender where present.
      Every other column keeps its label and its cells. */
  function DropStage(j: Table): (b: Table)
    requires WellFormed(j) && "first_last" in j.columns
    ensures WellFormed(b) && |b.rows| == |j.rows|
    ensures forall c :: c in b.columns <==>
      c in j.columns && c != "first_last" && c != "Name_scrape" && c != "Gender_scrape"
    ensures forall k, c :: 0 <= k < |b.rows| && c in b.columns ==> At(b, k, c) == At(j, k, c)
  {
    var a := DropColumns(j, ["first_last"]);
    var drops := ScrapeDrops(a.columns);
    if drops != [] then DropColumns(a, drops) else a
  }

  /** Lines 103-111: the database name and gender take the plain labels where present. pandas
      would keep two columns under one label when a new label is already taken; that case is
      a failure here. */
  function RenameStage(b: Table): (r: Result<Table, FrameError>)
    requires WellFormed(b)
    ensures r.Failure? <==> !Distinct(RenameAll(b.columns, DbRenames(b.columns)))
    ensures r.Failure? ==> r.error == DuplicateLabels
    ensures r.Success? ==> WellFormed(r.value) && r.value.rows == b.rows
    ensures r.Success? ==> r.value.columns == RenameAll(b.columns, DbRenames(b.columns))
  {
    var renames := DbRenames(b.columns);
    if !Distinct(RenameAll(b.columns, renames)) then Failure(DuplicateLabels)
    else if renames != map[] then Success(RenameColumns(b, renames))
    else
      assert RenameAll(b.columns, renames) == b.columns;
      Success(b)
  }

  /** `fillna(0)`, then `replace('', 0)`, then `replace(r'^\\s*$', 0, regex=True)` on one
      cell. */
  function CleanCell(c: Cell): (r: Cell)
    ensures c.Missing? || (c.Str? && AllSpace(c.s)) ==> r == Num(0)
    ensures !(c.Missing? || (c.Str? && AllSpace(c.s))) ==> r == c
  {
    BlankCell(ReplaceCell(FillCell(c, Num(0)), Str(""), Num(0)), Num(0))
  }

  /** A cell the cleanup leaves alone: neither missing nor an empty or whitespace-only
      string. */
  predicate Filled(c: Cell) {
    !c.Missing? && !(c.Str? && AllSpace(c.s))
  }

  /** Lines 91-117 on the merged table: drop, rename, and clean every cell. */
  function Cleanup(j: Table): (r: Result<Table, FrameError>)
    requires WellFormed(j) && "first_last" in j.columns
    ensures r.Failure? ==> r.error == DuplicateLabels
    ensures r.Success? ==> WellFormed(r.value) && |r.value.rows| == |j.rows|
  {
    match RenameStage(DropStage(j))
    case Failure(e) => Failure(e)
    case Success(c) => Success(MapCells(c, CleanCell))
  }

  /** The labels the cleanup removes or renames. */
  predicate Special(c: string) {
    c == "first_last" || c == "Name_scrape" || c == "Gender_scrape" || c == "Name_db" || c == "Gender_db"
  }

  /** After the cleanup the key, the scraped name and gender and the `_db` labels are gone,
      and the row count is unchanged. */
  lemma CleanupShape(j: Table)
    requires WellFormed(j) && "first_last" in j.columns
    requires Cleanup(j).Success?
    ensures var r := Cleanup(j).value;
      && WellFormed(r) && |r.rows| == |j.rows|
      && forall c :: c in r.columns ==> !Special(c)
  {
    var b := DropStage(j);
    var renames := DbRenames(b.columns);
    var c := RenameStage(b).value;
    assert Cleanup(j).value.columns == c.columns;
    forall x | x in c.columns ensures !Special(x) {
      var i := Position(c.columns, x);
      var y := b.columns[i];
      assert y in b.columns;
      assert y !in renames ==> y != "Name_db" && y != "Gender_db";
      assert x == Renamed(y, renames);
    }
  }

  /** After the cleanup no cell is missing, empty or whitespace-only. */
  lemma CleanupFilled(j: Table)
    requires WellFormed(j) && "first_last" in j.columns
    requires Cleanup(j).Success?
    ensures var r := Cleanup(j).value;
      forall k, c :: 0 <= k < |r.rows| && c in r.columns ==> Filled(At(r, k, c))
  {
    var c := RenameStage(DropStage(j)).value;
    var r := MapCells(c, CleanCell);
    forall k, x | 0 <= k < |r.rows| && x in r.columns ensures Filled(At(r, k, x)) {
      var i := Position(r.columns, x);
      assert At(r, k, x) == CleanCell(c.rows[k][i]);
    }
  }

  /** A column the cleanup does not name keeps its label and has each cell cleaned. */
  lemma CleanupKeeps(j: Table, name: string)
    requires WellFormed(j) && "first_last" in j.columns
    requires Cleanup(j).Success?
    requires name in j.columns && !Special(name)
    ensures var r := Cleanup(j).value;
      && name in r.columns && |r.rows| == |j.rows|
      && forall k :: 0 <= k < |j.rows| ==> At(r, k, name) == CleanCell(At(j, k, name))
  {
    var b := DropStage(j);
    var renames := DbRenames(b.columns);
    RenamedCells(b, renames, name);
  }

  /** The database name and gender take the plain labels, with their cells cleaned. */
  lemma CleanupRenames(j: Table, from: string, to: string)
    requires WellFormed(j) && "first_last" in j.columns
    requires Cleanup(j).Success?
    requires (from, to) == ("Name_db", "Name") || (from, to) == ("Gender_db", "Gender")
    requires from in j.columns
    ensures var r := Cleanup(j).value;
      && to in r.columns && |r.rows| == |j.rows|
      && forall k :: 0 <= k < |j.rows| ==> At(r, k, to) == CleanCell(At(j, k, from))
  {
    var b := DropStage(j);
    var renames := DbRenames(b.columns);
    RenamedCells(b, renames, from);
  }

  // ---------------------------------------------------------------------------
  // The whole script
  // ---------------------------------------------------------------------------

  /** Lines 77-84 on one table: the key column, then the birthplaces. */
  function Prepare(t: Table, table: map<string, string>): (r: Result<Table, FrameError>)
    requires WellFormed(t)
    ensures r.Failure? <==> "Name" !in t.columns
    ensures r.Failure? ==> r.error == KeyError("Name")
    ensures r.Success? ==> WellFormed(r.value) && r.value.columns == Keyed(t.columns) && |r.value.rows| == |t.rows|
    ensures r.Success? ==> forall k :: 0 <= k < |t.rows| ==>
      At(r.value, k, "first_last") == KeyCell(At(t, k, "Name"))
    ensures r.Success? ==> forall k, c :: 0 <= k < |t.rows| && c in t.columns && c != "first_last" ==>
      At(r.value, k, c) == Prep(c, At(t, k, c), table)
  {
    match WithKey(t)
    case Failure(e) => Failure(e)
    case Success(k) => Success(WithStates(k, table))
  }

  /** The join keys of a table, top to bottom. */
  function NameKeys(t: Table): (r: seq<Cell>)
    requires WellFormed(t) && "Name" in t.columns
    ensures |r| == |t.rows|
    ensures forall k :: 0 <= k < |t.rows| ==> r[k] == KeyCell(At(t, k, "Name"))
  {
    seq(|t.rows|, k requires 0 <= k < |t.rows| => KeyCell(At(t, k, "Name")))
  }

  /** The (database row, scraped row) pairs the inner join keeps. */
  function Pairs(t1: Table, t2: Table): (ps: seq<(nat, nat)>)
    requires WellFormed(t1) && WellFormed(t2) && "Name" in t1.columns && "Name" in t2.columns
    ensures forall k :: 0 <= k < |ps| ==> ps[k].0 < |t1.rows| && ps[k].1 < |t2.rows|
  {
    var ps := MatchingPairs(NameKeys(t1), NameKeys(t2), 0);
    assert forall k :: 0 <= k < |ps| ==> ps[k] in ps;
    ps
  }

  /** The key column of a prepared table holds the join keys of the original. */
  lemma PreparedKeys(t: Table, table: map<string, string>)
    requires WellFormed(t) && "Name" in t.columns
    ensures KeyCells(Prepare(t, table).value, "first_last") == NameKeys(t)
  {
  }

  /** The merge of the prepared tables pairs the rows whose join keys agree. */
  lemma JoinedPairs(t1: Table, t2: Table, table: map<string, string>)
    requires WellFormed(t1) && WellFormed(t2) && "Name" in t1.columns && "Name" in t2.columns
    ensures MatchingPairs(KeyCells(Prepare(t1, table).value, "first_last"), KeyCells(Prepare(t2, table).value, "first_last"), 0)
      == Pairs(t1, t2)
  {
    PreparedKeys(t1, table);
    PreparedKeys(t2, table);
  }

  /** The table the script writes, from the database table `t1` and the scraped table
      `t2`, or the error that stops it. */
  function Pipeline(t1: Table, t2: Table, table: map<string, string>): (r: Result<Table, FrameError>)
    requires WellFormed(t1) && WellFormed(t2)
    ensures r.Success? ==> "Name" in t1.columns && "Name" in t2.columns
    ensures r.Success? ==> WellFormed(r.value) && |r.value.rows| == |Pairs(t1, t2)|
  {
    match Prepare(t1, table)
    case Failure(e) => Failure(e)
    case Success(p1) =>
      match Prepare(t2, table)
      case Failure(e) => Failure(e)
      case Success(p2) =>
        match Merge(p1, p2, "first_last", "_db", "_scrape")
        case Failure(e) => Failure(e)
        case Success(j) =>
          KeyInMerged(p1.columns, p2.columns, "first_last", "_db", "_scrape");
          JoinedPairs(t1, t2, table);
          Cleanup(j)
  }

  /** The script stops with the `KeyError` for `Name` exactly when one of the tables has no
      `Name` column; otherwise the only way it can stop is a clash of labels. */
  lemma PipelineErrors(t1: Table, t2: Table, table: map<string, string>)
    requires WellFormed(t1) && WellFormed(t2)
    ensures var r := Pipeline(t1, t2, table);
      (r.Failure? && r.error == KeyError("Name")) <==> "Name" !in t1.columns || "Name" !in t2.columns
    ensures var r := Pipeline(t1, t2, table);
      r.Failure? && "Name" in t1.columns && "Name" in t2.columns ==> r.error == DuplicateLabels
  {
  }

  /** The label a column of one table has in the output: suffixed when the other table has
      a column of the same name. */
  function OutLabel(c: string, other: seq<string>, suffix: string): string {
    if c in other then c + suffix else c
  }

  /** The database name is labelled `Name_db` in the merge. */
  lemma NameDbLabel(other: seq<string>)
    requires "Name" in other
    ensures OutLabel("Name", other, "_db") == "Name_db"
  {
    assert "Name" + "_db" == "Name_db";
  }

  /** The database gender is labelled `Gender_db` in the merge when the scraped table has
      a gender too. */
  lemma GenderDbLabel(other: seq<string>)
    requires "Gender" in other
    ensures OutLabel("Gender", other, "_db") == "Gender_db"
  {
    assert "Gender" + "_db" == "Gender_db";
  }

  /** Against a prepared table, the merge suffixes the same labels as against the original. */
  lemma KeyedLabel(c: string, other: seq<string>, suffix: string)
    requires c != "first_last"
    ensures Suffixed(c, Keyed(other), "first_last", suffix) == OutLabel(c, other, suffix)
  {
    assert c in Keyed(other) <==> c in other;
  }

  /** The merge of the prepared tables. */
  function Joined(t1: Table, t2: Table, table: map<string, string>): Result<Table, FrameError>
    requires WellFormed(t1) && WellFormed(t2) && "Name" in t1.columns && "Name" in t2.columns
  {
    Merge(Prepare(t1, table).value, Prepare(t2, table).value, "first_last", "_db", "_scrape")
  }

  /** The merge keeps the prepared database cells of each matched pair under the merged
      label. */
  lemma JoinedLeftCells(t1: Table, t2: Table, table: map<string, string>, c: string)
    requires WellFormed(t1) && WellFormed(t2) && "Name" in t1.columns && "Name" in t2.columns
    requires Joined(t1, t2, table).Success? && c in t1.columns
    ensures var p1 := Prepare(t1, table).value; var p2 := Prepare(t2, table).value;
      var j := Joined(t1, t2, table).value; var ps := Pairs(t1, t2);
      var lab := Suffixed(c, p2.columns, "first_last", "_db");
      && c in p1.columns && lab in j.columns && |j.rows| == |ps|
      && forall k :: 0 <= k < |ps| ==> ps[k].0 < |p1.rows| && At(j, k, lab) == At(p1, ps[k].0, c)
  {
    var p1 := Prepare(t1, table).value;
    var p2 := Prepare(t2, table).value;
    JoinedPairs(t1, t2, table);
    MergeLeftCells(p1, p2, "first_last", "_db", "_scrape", c);
  }

  /** The merge keeps the prepared scraped cells of each matched pair under the merged
      label. */
  lemma JoinedRightCells(t1: Table, t2: Table, table: map<string, string>, c: string)
    requires WellFormed(t1) && WellFormed(t2) && "Name" in t1.columns && "Name" in t2.columns
    requires Joined(t1, t2, table).Success? && c in t2.columns && c != "first_last"
    ensures var p1 := Prepare(t1, table).value; var p2 := Prepare(t2, table).value;
      var j := Joined(t1, t2, table).value; var ps := Pairs(t1, t2);
      var lab := Suffixed(c, p1.columns, "first_last", "_scrape");
      && c in p2.columns && lab in j.columns && |j.rows| == |ps|
      && forall k :: 0 <= k < |ps| ==> ps[k].1 < |p2.rows| && At(j, k, lab) == At(p2, ps[k].1, c)
  {
    var p1 := Prepare(t1, table).value;
    var p2 := Prepare(t2, table).value;
    JoinedPairs(t1, t2, table);
    MergeRightCells(p1, p2, "first_last", "_db", "_scrape", c);
  }

  /** A database column other than the key is found in the merge under its output label,
      its cells taken from the database row of each matched pair. */
  lemma JoinedLeft(t1: Table, t2: Table, table: map<string, string>, c: string)
    requires WellFormed(t1) && WellFormed(t2) && "Name" in t1.columns && "Name" in t2.columns
    requires Joined(t1, t2, table).Success? && c in t1.columns && c != "first_last"
    ensures var j := Joined(t1, t2, table).value; var ps := Pairs(t1, t2);
      && OutLabel(c, t2.columns, "_db") in j.columns && |j.rows| == |ps|
      && forall k :: 0 <= k < |ps| ==> At(j, k, OutLabel(c, t2.columns, "_db")) == Prep(c, At(t1, ps[k].0, c), table)
  {
    var p1 := Prepare(t1, table).value;
    var p2 := Prepare(t2, table).value;
    var j := Joined(t1, t2, table).value;
    var ps := Pairs(t1, t2);
    var lab := OutLabel(c, t2.columns, "_db");
    KeyedLabel(c, t2.columns, "_db");
    JoinedLeftCells(t1, t2, table, c);
    forall k | 0 <= k < |ps| ensures At(j, k, lab) == Prep(c, At(t1, ps[k].0, c), table) {
      assert At(j, k, lab) == At(p1, ps[k].0, c);
    }
  }

  /** A scraped column other than the key is found in the merge under its output label, its
      cells taken from the scraped row of each matched pair. */
  lemma JoinedRight(t1: Table, t2: Table, table: map<string, string>, c: string)
    requires WellFormed(t1) && WellFormed(t2) && "Name" in t1.columns && "Name" in t2.columns
    requires Joined(t1, t2, table).Success? && c in t2.columns && c != "first_last"
    ensures var j := Joined(t1, t2, table).value; var ps := Pairs(t1, t2);
      && OutLabel(c, t1.columns, "_scrape") in j.columns && |j.rows| == |ps|
      && forall k :: 0 <= k < |ps| ==> At(j, k, OutLabel(c, t1.columns, "_scrape")) == Prep(c, At(t2, ps[k].1, c), table)
  {
    var p1 := Prepare(t1, table).value;
    var p2 := Prepare(t2, table).value;
    var j := Joined(t1, t2, table).value;
    var ps := Pairs(t1, t2);
    var lab := OutLabel(c, t1.columns, "_scrape");
    KeyedLabel(c, t1.columns, "_scrape");
    JoinedRightCells(t1, t2, table, c);
    forall k | 0 <= k < |ps| ensures At(j, k, lab) == Prep(c, At(t2, ps[k].1, c), table) {
      assert At(j, k, lab) == At(p2, ps[k].1, c);
    }
  }

  /** On success the script's table is the cleanup of the merge. */
  lemma PipelineJoined(t1: Table, t2: Table, table: map<string, string>)
    requires WellFormed(t1) && WellFormed(t2)
    requires Pipeline(t1, t2, table).Success?
    ensures "Name" in t1.columns && "Name" in t2.columns
    ensures Joined(t1, t2, table).Success? && "first_last" in Joined(t1, t2, table).value.columns
    ensures Pipeline(t1, t2, table) == Cleanup(Joined(t1, t2, table).value)
  {
    var p1 := Prepare(t1, table).value;
    var p2 := Prepare(t2, table).value;
    KeyInMerged(p1.columns, p2.columns, "first_last", "_db", "_scrape");
  }

  /** The written table has one row per pair of rows with equal keys, a `Name` column, none of
      the key, scraped name and gender or `_db` labels, and no missing, empty or
      whitespace-only cell. */
  lemma PipelineShape(t1: Table, t2: Table, table: map<string, string>)
    requires WellFormed(t1) && WellFormed(t2)
    requires Pipeline(t1, t2, table).Success?
    ensures "Name" in t1.columns && "Name" in t2.columns
    ensures var r := Pipeline(t1, t2, table).value;
      && WellFormed(r) && |r.rows| == |Pairs(t1, t2)|
      && "Name" in r.columns
      && (forall c :: c in r.columns ==> !Special(c))
      && (forall k, c :: 0 <= k < |r.rows| && c in r.columns ==> Filled(At(r, k, c)))
  {
    var p1 := Prepare(t1, table).value;
    var p2 := Prepare(t2, table).value;
    var j := Merge(p1, p2, "first_last", "_db", "_scrape").value;
    KeyInMerged(p1.columns, p2.columns, "first_last", "_db", "_scrape");
    PreparedKeys(t1, table);
    PreparedKeys(t2, table);
    CleanupShape(j);
    CleanupFilled(j);
    MergeLeftCells(p1, p2, "first_last", "_db", "_scrape", "Name");
    NameDbLabel(p2.columns);
    CleanupRenames(j, "Name_db", "Name");
  }

  /** The pairs the join keeps are exactly the pairs of a database row and a scraped row
      whose keys agree. */
  lemma PairsMatch(t1: Table, t2: Table)
    requires WellFormed(t1) && WellFormed(t2) && "Name" in t1.columns && "Name" in t2.columns
    ensures var ps := Pairs(t1, t2);
      && (forall k :: 0 <= k < |ps| ==>
            && ps[k].0 < |t1.rows| && ps[k].1 < |t2.rows|
            && KeyCell(At(t1, ps[k].0, "Name")) == KeyCell(At(t2, ps[k].1, "Name")))
      && (forall i, j ::
            0 <= i < |t1.rows| && 0 <= j < |t2.rows| && KeyCell(At(t1, i, "Name")) == KeyCell(At(t2, j, "Name"))
            ==> (i, j) in ps)
  {
    var ps := Pairs(t1, t2);
    forall k | 0 <= k < |ps|
      ensures ps[k].0 < |t1.rows| && ps[k].1 < |t2.rows| && KeyCell(At(t1, ps[k].0, "Name")) == KeyCell(At(t2, ps[k].1, "Name"))
    {
      assert ps[k] in ps;
    }
  }

  /** Row `k` of the written table comes from the `k`-th pair of rows with equal keys: its
      `Name` is the database name, cleaned. */
  lemma PipelineName(t1: Table, t2: Table, table: map<string, string>)
    requires WellFormed(t1) && WellFormed(t2)
    requires Pipeline(t1, t2, table).Success?
    ensures "Name" in t1.columns && "Name" in t2.columns
    ensures var r := Pipeline(t1, t2, table).value; var ps := Pairs(t1, t2);
      && "Name" in r.columns && |r.rows| == |ps|
      && forall k :: 0 <= k < |ps| ==> At(r, k, "Name") == CleanCell(At(t1, ps[k].0, "Name"))
  {
    PipelineJoined(t1, t2, table);
    var j := Joined(t1, t2, table).value;
    var r := Pipeline(t1, t2, table).value;
    var ps := Pairs(t1, t2);
    JoinedLeft(t1, t2, table, "Name");
    NameDbLabel(t2.columns);
    CleanupRenames(j, "Name_db", "Name");
    forall k | 0 <= k < |ps| ensures At(r, k, "Name") == CleanCell(At(t1, ps[k].0, "Name")) {
      assert At(r, k, "Name") == CleanCell(At(j, k, "Name_db"));
    }
  }

  /** When both tables have a gender, row `k` of the written table has the database gender
      of the `k`-th pair of rows with equal keys, cleaned, under the plain label `Gender`
      (the scraped gender is dropped). */
  lemma PipelineGender(t1: Table, t2: Table, table: map<string, string>)
    requires WellFormed(t1) && WellFormed(t2)
    requires Pipeline(t1, t2, table).Success?
    requires "Gender" in t1.columns && "Gender" in t2.columns
    ensures "Name" in t1.columns && "Name" in t2.columns
    ensures var r := Pipeline(t1, t2, table).value; var ps := Pairs(t1, t2);
      && "Gender" in r.columns && |r.rows| == |ps|
      && forall k :: 0 <= k < |ps| ==> At(r, k, "Gender") == CleanCell(At(t1, ps[k].0, "Gender"))
  {
    PipelineJoined(t1, t2, table);
    var j := Joined(t1, t2, table).value;
    var r := Pipeline(t1, t2, table).value;
    var ps := Pairs(t1, t2);
    JoinedLeft(t1, t2, table, "Gender");
    GenderDbLabel(t2.columns);
    CleanupRenames(j, "Gender_db", "Gender");
    forall k | 0 <= k < |ps| ensures At(r, k, "Gender") == CleanCell(At(t1, ps[k].0, "Gender")) {
      assert At(r, k, "Gender") == CleanCell(At(j, k, "Gender_db"));
    }
  }

  /** Any other database column reaches the output under its label (suffixed with `_db` when
      the scraped table has the same column), its cells cleaned; `Birth Place` cells are
      rewritten to states first. */
  lemma PipelineLeftColumn(t1: Table, t2: Table, table: map<string, string>, c: string)
    requires WellFormed(t1) && WellFormed(t2)
    requires Pipeline(t1, t2, table).Success?
    requires c in t1.columns && c != "first_last" && !Special(OutLabel(c, t2.columns, "_db"))
    ensures "Name" in t1.columns && "Name" in t2.columns
    ensures var r := Pipeline(t1, t2, table).value; var ps := Pairs(t1, t2); var lab := OutLabel(c, t2.columns, "_db");
      && lab in r.columns && |r.rows| == |ps|
      && forall k :: 0 <= k < |ps| ==> At(r, k, lab) == CleanCell(Prep(c, At(t1, ps[k].0, c), table))
  {
    PipelineJoined(t1, t2, table);
    var j := Joined(t1, t2, table).value;
    var r := Pipeline(t1, t2, table).value;
    var ps := Pairs(t1, t2);
    var lab := OutLabel(c, t2.columns, "_db");
    JoinedLeft(t1, t2, table, c);
    CleanupKeeps(j, lab);
    forall k | 0 <= k < |ps| ensures At(r, k, lab) == CleanCell(Prep(c, At(t1, ps[k].0, c), table)) {
      assert At(r, k, lab) == CleanCell(At(j, k, lab));
    }
  }

  /** Any other scraped column reaches the output under its label (suffixed with `_scrape`
      when the database table has the same column), its cells cleaned; `Birth Place` cells
      are rewritten to states first. */
  lemma PipelineRightColumn(t1: Table, t2: Table, table: map<string, string>, c: string)
    requires WellFormed(t1) && WellFormed(t2)
    requires Pipeline(t1, t2, table).Success?
    requires c in t2.columns && c != "first_last" && !Special(OutLabel(c, t1.columns, "_scrape"))
    ensures "Name" in t1.columns && "Name" in t2.columns
    ensures var r := Pipeline(t1, t2, table).value; var ps := Pairs(t1, t2); var lab := OutLabel(c, t1.columns, "_scrape");
      && lab in r.columns && |r.rows| == |ps|
      && forall k :: 0 <= k < |ps| ==> At(r, k, lab) == CleanCell(Prep(c, At(t2, ps[k].1, c), table))
  {
    PipelineJoined(t1, t2, table);
    var j := Joined(t1, t2, table).value;
    var r := Pipeline(t1, t2, table).value;
    var ps := Pairs(t1, t2);
    var lab := OutLabel(c, t1.columns, "_scrape");
    JoinedRight(t1, t2, table, c);
    CleanupKeeps(j, lab);
    forall k | 0 <= k < |ps| ensures At(r, k, lab) == CleanCell(Prep(c, At(t2, ps[k].1, c), table)) {
      assert At(r, k, lab) == CleanCell(At(j, k, lab));
    }
  }
}
