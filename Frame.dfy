/**
  The part of a pandas DataFrame that the join script uses. A table is a list of distinct
  column labels and a list of rows; each row holds one cell per label, in the same order.
  The operations are column read and assignment, `drop`, `rename`, `merge` (an inner
  equi-join with suffixes for shared labels), `fillna` and `replace`. `DataFrame` is the
  mutable object the script updates in place; the functions give the value each operation
  produces.
*/
module Frame {
  import opened Wrappers
  import opened PyStr

  /** One cell: pandas' missing value (None or NaN), a string, or a number. */
  datatype Cell = Missing | Str(s: string) | Num(n: int)

  datatype Table = Table(columns: seq<string>, rows: seq<seq<Cell>>)

  /** What pandas raises: KeyError for an absent label, MergeError when labels clash. */
  datatype FrameError = KeyError(name: string) | DuplicateLabels

  /** No label occurs twice: the first occurrence of each label is where it stands. */
  predicate Distinct(names: seq<string>) {
    forall i :: 0 <= i < |names| ==> Position(names, names[i]) == i
  }

  /** Labels are distinct and every row has one cell per label. */
  predicate WellFormed(t: Table) {
    && Distinct(t.columns)
    && forall k :: 0 <= k < |t.rows| ==> |t.rows[k]| == |t.columns|
  }

  /** Where `name` stands among `cols` (its first occurrence). */
  function Position(cols: seq<string>, name: string): (i: nat)
    requires name in cols
    ensures i < |cols| && cols[i] == name
  {
    if cols[0] == name then 0 else 1 + Position(cols[1..], name)
  }

  /** The cell of row `k` under the label `name`: `df.loc[k, name]`. */
  function At(t: Table, k: nat, name: string): Cell
    requires WellFormed(t) && k < |t.rows| && name in t.columns
  {
    t.rows[k][Position(t.columns, name)]
  }

  /** Among distinct labels, the position of the label at `i` is `i`. */
  lemma PositionOf(cols: seq<string>, i: nat)
    requires Distinct(cols) && i < |cols|
    ensures Position(cols, cols[i]) == i
  {
  }

  /** In `a + b` a label is found in `a` when it is there, and after `a` otherwise. */
  lemma {:induction false} PositionConcat(a: seq<string>, b: seq<string>, x: string)
    requires x in a + b
    ensures x in a ==> Position(a + b, x) == Position(a, x)
    ensures x !in a ==> x in b && Position(a + b, x) == |a| + Position(b, x)
  {
    if a == [] {
      assert a + b == b;
    } else if a[0] != x {
      assert (a + b)[1..] == a[1..] + b;
      PositionConcat(a[1..], b, x);
    }
  }

  /** Distinct labels have a first label that does not recur, and a distinct rest. */
  lemma DistinctTail(cols: seq<string>)
    requires Distinct(cols) && cols != []
    ensures cols[0] !in cols[1..] && Distinct(cols[1..])
  {
    forall i | 0 <= i < |cols| - 1 ensures Position(cols[1..], cols[1..][i]) == i {
      assert Position(cols, cols[i + 1]) == i + 1;
    }
  }

  /** A label that does not occur in distinct labels can be put in front of them. */
  lemma DistinctCons(x: string, rest: seq<string>)
    requires x !in rest && Distinct(rest)
    ensures Distinct([x] + rest)
  {
    var s := [x] + rest;
    assert s[1..] == rest;
    forall i | 0 <= i < |s| ensures Position(s, s[i]) == i {
      if i > 0 {
        assert s[i] == rest[i - 1];
      }
    }
  }

  /** Keeping the first of distinct labels in front of a distinct selection of the others
      gives distinct labels. */
  lemma DistinctKept(cols: seq<string>, rest: seq<string>)
    requires cols != [] && forall c :: c in rest ==> c in cols[1..]
    requires Distinct(cols[1..]) ==> Distinct(rest)
    ensures Distinct(cols) ==> Distinct([cols[0]] + rest)
  {
    if Distinct(cols) {
      DistinctTail(cols);
      DistinctCons(cols[0], rest);
    }
  }

  /** Dropping the first of distinct labels leaves them distinct. */
  lemma DistinctRest(cols: seq<string>, rest: seq<string>)
    requires cols != []
    requires Distinct(cols[1..]) ==> Distinct(rest)
    ensures Distinct(cols) ==> Distinct(rest)
  {
    if Distinct(cols) {
      DistinctTail(cols);
    }
  }

  /** Appending labels leaves the positions of the others unchanged. */
  lemma PositionAppend(cols: seq<string>, extra: seq<string>, name: string)
    requires name in cols
    ensures Position(cols + extra, name) == Position(cols, name)
  {
    PositionConcat(cols, extra, name);
  }

  /** A new label can be appended to distinct labels. */
  lemma DistinctSnoc(cols: seq<string>, name: string)
    requires Distinct(cols) && name !in cols
    ensures Distinct(cols + [name])
  {
    var s := cols + [name];
    forall i | 0 <= i < |s| ensures Position(s, s[i]) == i {
      PositionConcat(cols, [name], s[i]);
      if i < |cols| {
        assert s[i] == cols[i];
      }
    }
  }

  // ---------------------------------------------------------------------------
  // Reading and assigning columns
  // ---------------------------------------------------------------------------

  /** `df[name]`: the cells of one column, top to bottom, or KeyError when there is no
      such column. */
  function Column(t: Table, name: string): (r: Result<seq<Cell>, FrameError>)
    requires WellFormed(t)
    ensures r.Failure? <==> name !in t.columns
    ensures r.Failure? ==> r.error == KeyError(name)
    ensures r.Success? ==> |r.value| == |t.rows|
    ensures r.Success? ==> forall k :: 0 <= k < |t.rows| ==> r.value[k] == At(t, k, name)
  {
    if name !in t.columns then Failure(KeyError(name))
    else Success(seq(|t.rows|, k requires 0 <= k < |t.rows| => At(t, k, name)))
  }

  /** `series.apply(f)`. */
  function Apply(cells: seq<Cell>, f: Cell -> Cell): (r: seq<Cell>)
    ensures |r| == |cells|
    ensures forall k :: 0 <= k < |cells| ==> r[k] == f(cells[k])
  {
    seq(|cells|, k requires 0 <= k < |cells| => f(cells[k]))
  }

  /** `df[name] = values`: an existing column is overwritten where it stands, a new one is
      appended; every other cell stays as it was. */
  function WithColumn(t: Table, name: string, values: seq<Cell>): (r: Table)
    requires WellFormed(t) && |values| == |t.rows|
    ensures WellFormed(r)
    ensures r.columns == if name in t.columns then t.columns else t.columns + [name]
    ensures |r.rows| == |t.rows|
    ensures forall k :: 0 <= k < |r.rows| ==> At(r, k, name) == values[k]
    ensures forall k, c :: 0 <= k < |r.rows| && c in t.columns && c != name ==> At(r, k, c) == At(t, k, c)
  {
    if name in t.columns then
      var p := Position(t.columns, name);
      var r := Table(t.columns, seq(|t.rows|, k requires 0 <= k < |t.rows| => t.rows[k][p := values[k]]));
      assert forall c :: c in t.columns ==> Position(r.columns, c) == Position(t.columns, c);
      r
    else
      var cols := t.columns + [name];
      DistinctSnoc(t.columns, name);
      var r := Table(cols, seq(|t.rows|, k requires 0 <= k < |t.rows| => t.rows[k] + [values[k]]));
      forall c | c in t.columns ensures Position(cols, c) == Position(t.columns, c) {
        PositionAppend(t.columns, [name], c);
      }
      assert Position(cols, name) == |t.columns| by {
        PositionConcat(t.columns, [name], name);
      }
      r
  }

  // ---------------------------------------------------------------------------
  // drop and rename
  // ---------------------------------------------------------------------------

  /** The labels of `cols` that are not in `drop`, in their order. */
  function Without(cols: seq<string>, drop: seq<string>): (r: seq<string>)
    ensures forall c :: c in r <==> c in cols && c !in drop
    ensures Distinct(cols) ==> Distinct(r)
    ensures |r| <= |cols|
  {
    if cols == [] then []
    else
      var rest := Without(cols[1..], drop);
      if cols[0] in drop then
        DistinctRest(cols, rest);
        rest
      else
        DistinctKept(cols, rest);
        [cols[0]] + rest
  }

  /** Each row laid out under `cols`, a subset of the labels of `t`. */
  function Lookup(t: Table, cols: seq<string>): (rows: seq<seq<Cell>>)
    requires WellFormed(t) && forall c :: c in cols ==> c in t.columns
    ensures |rows| == |t.rows|
    ensures forall k :: 0 <= k < |rows| ==> |rows[k]| == |cols|
    ensures forall k, i :: 0 <= k < |rows| && 0 <= i < |cols| ==> rows[k][i] == At(t, k, cols[i])
  {
    seq(|t.rows|, k requires 0 <= k < |t.rows| =>
      seq(|cols|, i requires 0 <= i < |cols| => At(t, k, cols[i])))
  }

  /** `df.drop(columns=names)`: the table without those columns, the others in their order
      and with their cells. pandas raises KeyError for a label that is not there; the script
      only drops labels it has just found. */
  function DropColumns(t: Table, names: seq<string>): (r: Table)
    requires WellFormed(t)
    requires forall c :: c in names ==> c in t.columns
    ensures WellFormed(r)
    ensures r.columns == Without(t.columns, names)
    ensures |r.rows| == |t.rows|
    ensures forall k, c :: 0 <= k < |r.rows| && c in r.columns ==> At(r, k, c) == At(t, k, c)
  {
    var cols := Without(t.columns, names);
    var r := Table(cols, Lookup(t, cols));
    forall k, c | 0 <= k < |r.rows| && c in r.columns ensures At(r, k, c) == At(t, k, c) {
      assert r.rows[k][Position(cols, c)] == At(t, k, cols[Position(cols, c)]);
    }
    r
  }

  /** The label `c` gets from `rename(columns=renames)`. */
  function Renamed(c: string, renames: map<string, string>): string {
    if c in renames then renames[c] else c
  }

  function RenameAll(cols: seq<string>, renames: map<string, string>): (r: seq<string>)
    ensures |r| == |cols|
    ensures forall i :: 0 <= i < |cols| ==> r[i] == Renamed(cols[i], renames)
  {
    seq(|cols|, i requires 0 <= i < |cols| => Renamed(cols[i], renames))
  }

  /** `df.rename(columns=renames)`: each label found in `renames` is replaced where it stands,
      and every cell stays under its (possibly new) label. Labels that would repeat cannot be
      represented here. */
  function RenameColumns(t: Table, renames: map<string, string>): (r: Table)
    requires WellFormed(t)
    requires Distinct(RenameAll(t.columns, renames))
    ensures WellFormed(r)
    ensures r.columns == RenameAll(t.columns, renames) && r.rows == t.rows
  {
    Table(RenameAll(t.columns, renames), t.rows)
  }

  /** After a rename, the cells of a column are found under its new label. */
  lemma RenamedCells(t: Table, renames: map<string, string>, c: string)
    requires WellFormed(t) && Distinct(RenameAll(t.columns, renames)) && c in t.columns
    ensures var r := RenameColumns(t, renames);
      && Renamed(c, renames) in r.columns
      && forall k :: 0 <= k < |t.rows| ==> At(r, k, Renamed(c, renames)) == At(t, k, c)
  {
    var r := RenameColumns(t, renames);
    var i := Position(t.columns, c);
    assert r.columns[i] == Renamed(c, renames);
    PositionOf(r.columns, i);
  }

  // ---------------------------------------------------------------------------
  // Cell-wise replacement: fillna and replace
  // ---------------------------------------------------------------------------

  /** The same table with `f` applied to every cell. */
  function MapCells(t: Table, f: Cell -> Cell): (r: Table)
    requires WellFormed(t)
    ensures WellFormed(r) && r.columns == t.columns && |r.rows| == |t.rows|
    ensures forall k, i :: 0 <= k < |r.rows| && 0 <= i < |t.columns| ==> r.rows[k][i] == f(t.rows[k][i])
  {
    Table(t.columns, seq(|t.rows|, k requires 0 <= k < |t.rows| => Apply(t.rows[k], f)))
  }

  /** Two cell-wise passes are one pass of their composition. */
  lemma MapCellsTwice(t: Table, f: Cell -> Cell, g: Cell -> Cell, h: Cell -> Cell)
    requires WellFormed(t) && forall c :: h(c) == g(f(c))
    ensures MapCells(MapCells(t, f), g) == MapCells(t, h)
  {
    var a := MapCells(MapCells(t, f), g);
    var b := MapCells(t, h);
    forall k | 0 <= k < |t.rows| ensures a.rows[k] == b.rows[k] {
      assert a.rows[k] == Apply(Apply(t.rows[k], f), g);
    }
  }

  /** `fillna(value)` on one cell. */
  function FillCell(c: Cell, value: Cell): Cell {
    if c.Missing? then value else c
  }

  /** `replace(old, new)` on one cell: an exact match is replaced. */
  function ReplaceCell(c: Cell, from: Cell, to: Cell): Cell {
    if c == from then to else c
  }

  /** `replace(r'^\s*$', value, regex=True)` on one cell: a string that is empty or all
      whitespace is replaced as a whole; other cells, strings or not, are kept. */
  function BlankCell(c: Cell, value: Cell): Cell {
    if c.Str? && AllSpace(c.s) then value else c
  }

  // ---------------------------------------------------------------------------
  // merge
  // ---------------------------------------------------------------------------

  /** The label a column of one side gets in a merge on `key`: a label the other side also
      has is suffixed, except the key itself. */
  function Suffixed(c: string, other: seq<string>, key: string, suffix: string): string {
    if c != key && c in other then c + suffix else c
  }

  function SuffixAll(cols: seq<string>, other: seq<string>, key: string, suffix: string): (r: seq<string>)
    ensures |r| == |cols|
    ensures forall i :: 0 <= i < |cols| ==> r[i] == Suffixed(cols[i], other, key, suffix)
  {
    seq(|cols|, i requires 0 <= i < |cols| => Suffixed(cols[i], other, key, suffix))
  }

  /** Labels of `merge(left, right, on=key, suffixes=(ls, rs))`: the left labels, then the
      right labels except the key. */
  function MergedColumns(left: seq<string>, right: seq<string>, key: string, ls: string, rs: string): seq<string> {
    SuffixAll(left, right, key, ls) + SuffixAll(Without(right, [key]), left, key, rs)
  }

  /** The key keeps its label in a merge. */
  lemma KeyInMerged(left: seq<string>, right: seq<string>, key: string, ls: string, rs: string)
    requires key in left
    ensures key in MergedColumns(left, right, key, ls, rs)
  {
    var i :| 0 <= i < |left| && left[i] == key;
    assert MergedColumns(left, right, key, ls, rs)[i] == key;
  }

  /** The key cells of a table, top to bottom. */
  function KeyCells(t: Table, key: string): (r: seq<Cell>)
    requires WellFormed(t) && key in t.columns
    ensures |r| == |t.rows|
    ensures forall k :: 0 <= k < |t.rows| ==> r[k] == At(t, k, key)
  {
    seq(|t.rows|, k requires 0 <= k < |t.rows| => At(t, k, key))
  }

  /** Lexicographic order on (left row, right row) index pairs. */
  predicate Before(p: (nat, nat), q: (nat, nat)) {
    p.0 < q.0 || (p.0 == q.0 && p.1 < q.1)
  }

  /** The pairs (i, j) with `j0 <= j` whose right key equals `x`, in increasing j. */
  function MatchesOf(x: Cell, i: nat, right: seq<Cell>, j0: nat): (ps: seq<(nat, nat)>)
    requires j0 <= |right|
    ensures forall p :: p in ps <==> p.0 == i && j0 <= p.1 < |right| && right[p.1] == x
    ensures forall a, b :: 0 <= a < b < |ps| ==> ps[a].0 == ps[b].0 && ps[a].1 < ps[b].1
    decreases |right| - j0
  {
    if j0 == |right| then []
    else
      var rest := MatchesOf(x, i, right, j0 + 1);
      if right[j0] == x then
        assert forall b :: 0 <= b < |rest| ==> rest[b] in rest;
        [(i, j0)] + rest
      else rest
  }

  /** Every (i, j) with `i0 <= i` whose left and right keys are equal, each exactly once, in
      lexicographic order: the rows an inner join pairs up. Missing keys match each other, as
      they do in pandas. */
  function MatchingPairs(left: seq<Cell>, right: seq<Cell>, i0: nat): (ps: seq<(nat, nat)>)
    requires i0 <= |left|
    ensures forall p :: p in ps <==> i0 <= p.0 < |left| && p.1 < |right| && left[p.0] == right[p.1]
    ensures forall a, b :: 0 <= a < b < |ps| ==> Before(ps[a], ps[b])
    decreases |left| - i0
  {
    if i0 == |left| then []
    else
      var head := MatchesOf(left[i0], i0, right, 0);
      var rest := MatchingPairs(left, right, i0 + 1);
      assert forall a :: 0 <= a < |head| ==> head[a] in head;
      assert forall b :: 0 <= b < |rest| ==> rest[b] in rest;
      head + rest
  }

  /** One joined row: the left row, then the right row's cells under the right labels
      other than the key. */
  function Combine(l: seq<Cell>, r: seq<Cell>, right: seq<string>, key: string): (m: seq<Cell>)
    requires |r| == |right|
    ensures |m| == |l| + |Without(right, [key])|
  {
    var w := Without(right, [key]);
    l + seq(|w|, x requires 0 <= x < |w| => r[Position(right, w[x])])
  }

  /** `pd.merge(lt, rt, on=key, how='inner', suffixes=(ls, rs))`. It fails when the suffixed
      labels are not distinct; otherwise it has one row per matching pair of rows. */
  function Merge(lt: Table, rt: Table, key: string, ls: string, rs: string): (r: Result<Table, FrameError>)
    requires WellFormed(lt) && WellFormed(rt)
    requires key in lt.columns && key in rt.columns
    ensures r.Failure? <==> !Distinct(MergedColumns(lt.columns, rt.columns, key, ls, rs))
    ensures r.Failure? ==> r.error == DuplicateLabels
    ensures r.Success? ==> WellFormed(r.value)
    ensures r.Success? ==> r.value.columns == MergedColumns(lt.columns, rt.columns, key, ls, rs)
    ensures r.Success? ==> |r.value.rows| == |MatchingPairs(KeyCells(lt, key), KeyCells(rt, key), 0)|
  {
    var out := MergedColumns(lt.columns, rt.columns, key, ls, rs);
    if !Distinct(out) then Failure(DuplicateLabels)
    else
      var ps := MatchingPairs(KeyCells(lt, key), KeyCells(rt, key), 0);
      assert forall k :: 0 <= k < |ps| ==> ps[k] in ps;
      var rows := seq(|ps|, k requires 0 <= k < |ps| =>
        Combine(lt.rows[ps[k].0], rt.rows[ps[k].1], rt.columns, key));
      Success(Table(out, rows))
  }

  /** Row `k` of a merge joins the rows of the `k`-th matching pair. */
  lemma MergeRow(lt: Table, rt: Table, key: string, ls: string, rs: string, k: nat)
    requires WellFormed(lt) && WellFormed(rt) && key in lt.columns && key in rt.columns
    requires Merge(lt, rt, key, ls, rs).Success?
    requires k < |MatchingPairs(KeyCells(lt, key), KeyCells(rt, key), 0)|
    ensures var ps := MatchingPairs(KeyCells(lt, key), KeyCells(rt, key), 0);
      && ps[k].0 < |lt.rows| && ps[k].1 < |rt.rows|
      && Merge(lt, rt, key, ls, rs).value.rows[k] == Combine(lt.rows[ps[k].0], rt.rows[ps[k].1], rt.columns, key)
  {
    var ps := MatchingPairs(KeyCells(lt, key), KeyCells(rt, key), 0);
    assert ps[k] in ps;
  }

  /** In a joined row, a right label other than the key holds the right row's cell. */
  lemma CombineRight(l: seq<Cell>, r: seq<Cell>, right: seq<string>, key: string, c: string)
    requires |r| == |right| && c in right && c != key
    ensures c in Without(right, [key])
    ensures Combine(l, r, right, key)[|l| + Position(Without(right, [key]), c)] == r[Position(right, c)]
  {
  }

  /** The cells of a left column are found in the merge under the left column's (possibly
      suffixed) label, taken from the left row of each matched pair. */
  lemma MergeLeftCells(lt: Table, rt: Table, key: string, ls: string, rs: string, c: string)
    requires WellFormed(lt) && WellFormed(rt) && key in lt.columns && key in rt.columns
    requires Merge(lt, rt, key, ls, rs).Success? && c in lt.columns
    ensures var m := Merge(lt, rt, key, ls, rs).value;
      var ps := MatchingPairs(KeyCells(lt, key), KeyCells(rt, key), 0);
      && Suffixed(c, rt.columns, key, ls) in m.columns
      && forall k :: 0 <= k < |ps| ==> At(m, k, Suffixed(c, rt.columns, key, ls)) == At(lt, ps[k].0, c)
  {
    var m := Merge(lt, rt, key, ls, rs).value;
    var ps := MatchingPairs(KeyCells(lt, key), KeyCells(rt, key), 0);
    var i := Position(lt.columns, c);
    assert m.columns[i] == Suffixed(c, rt.columns, key, ls);
    PositionOf(m.columns, i);
    forall k | 0 <= k < |ps| ensures At(m, k, Suffixed(c, rt.columns, key, ls)) == At(lt, ps[k].0, c) {
      MergeRow(lt, rt, key, ls, rs, k);
    }
  }

  /** Among distinct labels `a + b`, the label at `x` in `b` stands at `|a| + x`. */
  lemma PositionAfter(a: seq<string>, b: seq<string>, x: nat)
    requires Distinct(a + b) && x < |b|
    ensures b[x] in a + b && Position(a + b, b[x]) == |a| + x
  {
    assert (a + b)[|a| + x] == b[x];
    PositionOf(a + b, |a| + x);
  }

  /** A right label other than the key sits, suffixed where needed, after the left labels
      in the merged labels. */
  lemma MergedRightPosition(left: seq<string>, right: seq<string>, key: string, ls: string, rs: string, c: string)
    requires Distinct(MergedColumns(left, right, key, ls, rs)) && c in right && c != key
    ensures c in Without(right, [key])
    ensures var out := MergedColumns(left, right, key, ls, rs);
      && Suffixed(c, left, key, rs) in out
      && Position(out, Suffixed(c, left, key, rs)) == |left| + Position(Without(right, [key]), c)
  {
    var w := Without(right, [key]);
    assert c !in [key];
    var x := Position(w, c);
    var b := SuffixAll(w, left, key, rs);
    assert b[x] == Suffixed(c, left, key, rs);
    PositionAfter(SuffixAll(left, right, key, ls), b, x);
  }

  /** One cell of a right column in the merge. */
  lemma MergeRightCell(lt: Table, rt: Table, key: string, ls: string, rs: string, c: string, k: nat)
    requires WellFormed(lt) && WellFormed(rt) && key in lt.columns && key in rt.columns
    requires Merge(lt, rt, key, ls, rs).Success? && c in rt.columns && c != key
    requires k < |MatchingPairs(KeyCells(lt, key), KeyCells(rt, key), 0)|
    ensures var m := Merge(lt, rt, key, ls, rs).value;
      var ps := MatchingPairs(KeyCells(lt, key), KeyCells(rt, key), 0);
      && Suffixed(c, lt.columns, key, rs) in m.columns
      && ps[k].1 < |rt.rows|
      && At(m, k, Suffixed(c, lt.columns, key, rs)) == At(rt, ps[k].1, c)
  {
    var ps := MatchingPairs(KeyCells(lt, key), KeyCells(rt, key), 0);
    MergedRightPosition(lt.columns, rt.columns, key, ls, rs, c);
    MergeRow(lt, rt, key, ls, rs, k);
    CombineRight(lt.rows[ps[k].0], rt.rows[ps[k].1], rt.columns, key, c);
  }

  /** The cells of a right column other than the key are found in the merge under its
      (possibly suffixed) label, taken from the right row of each matched pair. */
  lemma MergeRightCells(lt: Table, rt: Table, key: string, ls: string, rs: string, c: string)
    requires WellFormed(lt) && WellFormed(rt) && key in lt.columns && key in rt.columns
    requires Merge(lt, rt, key, ls, rs).Success? && c in rt.columns && c != key
    ensures var m := Merge(lt, rt, key, ls, rs).value;
      var ps := MatchingPairs(KeyCells(lt, key), KeyCells(rt, key), 0);
      && Suffixed(c, lt.columns, key, rs) in m.columns
      && forall k :: 0 <= k < |ps| ==> At(m, k, Suffixed(c, lt.columns, key, rs)) == At(rt, ps[k].1, c)
  {
    var ps := MatchingPairs(KeyCells(lt, key), KeyCells(rt, key), 0);
    MergedRightPosition(lt.columns, rt.columns, key, ls, rs, c);
    forall k | 0 <= k < |ps|
      ensures At(Merge(lt, rt, key, ls, rs).value, k, Suffixed(c, lt.columns, key, rs)) == At(rt, ps[k].1, c)
    {
      MergeRightCell(lt, rt, key, ls, rs, c, k);
    }
  }

  /** Each row of the merge pairs a left and a right row whose keys are equal, and every
      such pair gives a row. */
  lemma MergePairs(lt: Table, rt: Table, key: string, ls: string, rs: string)
    requires WellFormed(lt) && WellFormed(rt) && key in lt.columns && key in rt.columns
    ensures var ps := MatchingPairs(KeyCells(lt, key), KeyCells(rt, key), 0);
      && (forall k :: 0 <= k < |ps| ==>
            ps[k].0 < |lt.rows| && ps[k].1 < |rt.rows| && At(lt, ps[k].0, key) == At(rt, ps[k].1, key))
      && (forall i, j :: 0 <= i < |lt.rows| && 0 <= j < |rt.rows| && At(lt, i, key) == At(rt, j, key) ==> (i, j) in ps)
  {
    var ps := MatchingPairs(KeyCells(lt, key), KeyCells(rt, key), 0);
    forall k | 0 <= k < |ps| ensures ps[k].0 < |lt.rows| && ps[k].1 < |rt.rows| && At(lt, ps[k].0, key) == At(rt, ps[k].1, key) {
      assert ps[k] in ps;
    }
  }

  // ---------------------------------------------------------------------------
  // The mutable DataFrame
  // ---------------------------------------------------------------------------

  /** A DataFrame object: its labels and rows change in place. */
  class DataFrame {
    var columns: seq<string>
    var rows: seq<seq<Cell>>

    /** The table the object holds now. */
    function Value(): Table
      reads this
    {
      Table(columns, rows)
    }

    predicate Valid()
      reads this
    {
      WellFormed(Value())
    }

    /** A new object holding `t`. */
    constructor (t: Table)
      requires WellFormed(t)
      ensures Value() == t && Valid()
    {
      columns := t.columns;
      rows := t.rows;
    }

    /** `df[name] = values` */
    method Assign(name: string, values: seq<Cell>)
      requires Valid() && |values| == |rows|
      modifies this
      ensures Valid() && Value() == WithColumn(old(Value()), name, values)
    {
      var r := WithColumn(Value(), name, values);
      columns, rows := r.columns, r.rows;
    }

    /** `df.drop(columns=names, inplace=True)` */
    method Drop(names: seq<string>)
      requires Valid() && forall c :: c in names ==> c in columns
      modifies this
      ensures Valid() && Value() == DropColumns(old(Value()), names)
    {
      var r := DropColumns(Value(), names);
      columns, rows := r.columns, r.rows;
    }

    /** `df.rename(columns=renames, inplace=True)` */
    method Rename(renames: map<string, string>)
      requires Valid() && Distinct(RenameAll(columns, renames))
      modifies this
      ensures Valid() && Value() == RenameColumns(old(Value()), renames)
    {
      columns := RenameAll(columns, renames);
    }

    /** `df = df.fillna(...)` or `df = df.replace(...)`: every cell updated by `f`. */
    method Map(f: Cell -> Cell)
      requires Valid()
      modifies this
      ensures Valid() && Value() == MapCells(old(Value()), f)
    {
      rows := MapCells(Value(), f).rows;
    }
  }
}
