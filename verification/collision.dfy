/** The Sample_ID collision detector: rows of a sample table are grouped by
    their index combination (`Index`, plus `Lane` and `Index2` when the table
    has those columns), and a row is reported when its group holds more than
    one distinct Sample_ID. */
module Collision {
  import opened Wrappers
  import opened SampleSheet

  /** A data frame: its column labels and its rows in order. A column missing
      from a row is a missing value (pandas' NaN). */
  datatype Frame = Frame(columns: set<string>, rows: seq<Row>)

  const IndexColumn := "Index"
  const LaneColumn := "Lane"
  const Index2Column := "Index2"
  const SampleIdColumn := "Sample_ID"

  /** pandas' `DataFrame.empty`: no rows or no columns. */
  predicate IsEmpty(f: Frame) {
    |f.rows| == 0 || f.columns == {}
  }

  /* ---------------------------------------------------------------------- */
  /* Boolean-mask selection                                                   */
  /* ---------------------------------------------------------------------- */

  /** The items of `xs` whose flag in `keep` is set, in their original order:
      indexing a frame with a boolean mask. */
  function Select<T>(xs: seq<T>, keep: seq<bool>): (ys: seq<T>)
    requires |keep| == |xs|
    ensures |ys| <= |xs|
  {
    if |xs| == 0 then []
    else
      var n := |xs| - 1;
      Select(xs[..n], keep[..n]) + (if keep[n] then [xs[n]] else [])
  }

  /** The positions whose flag is set, in increasing order. */
  function Positions(keep: seq<bool>): (ps: seq<nat>) {
    if |keep| == 0 then []
    else
      var n := |keep| - 1;
      Positions(keep[..n]) + (if keep[n] then [n] else [])
  }

  /** The selection is the subsequence of `xs` at exactly the flagged
      positions: those positions, increasing, picked out one by one. */
  lemma {:induction false} SelectPositions<T>(xs: seq<T>, keep: seq<bool>)
    requires |keep| == |xs|
    ensures var ys := Select(xs, keep);
            var ps := Positions(keep);
            && |ps| == |ys|
            && (forall k :: 0 <= k < |ps| ==> ps[k] < |xs| && keep[ps[k]] && ys[k] == xs[ps[k]])
            && (forall k, l :: 0 <= k < l < |ps| ==> ps[k] < ps[l])
            && (forall i :: 0 <= i < |xs| && keep[i] ==> i in ps)
  {
    if |xs| > 0 {
      var n := |xs| - 1;
      SelectPositions(xs[..n], keep[..n]);
      var ps := Positions(keep);
      var ys := Select(xs, keep);
      var ps0 := Positions(keep[..n]);
      var ys0 := Select(xs[..n], keep[..n]);
      assert ps == ps0 + (if keep[n] then [n] else []);
      assert ys == ys0 + (if keep[n] then [xs[n]] else []);
      forall k | 0 <= k < |ps| ensures ps[k] < |xs| && keep[ps[k]] && ys[k] == xs[ps[k]] {
        if k < |ps0| {
          assert ps[k] == ps0[k] && ys[k] == ys0[k];
          assert keep[..n][ps0[k]] == keep[ps0[k]];
          assert xs[..n][ps0[k]] == xs[ps0[k]];
        }
      }
      forall i | 0 <= i < |xs| && keep[i] ensures i in ps {
        if i < n {
          assert keep[..n][i] == keep[i];
        }
      }
    }
  }

  /** An item is selected exactly when it sits at some flagged position. */
  lemma SelectMembers<T>(xs: seq<T>, keep: seq<bool>)
    requires |keep| == |xs|
    ensures forall x :: x in Select(xs, keep) <==> exists i :: 0 <= i < |xs| && keep[i] && xs[i] == x
  {
    SelectPositions(xs, keep);
    var ys := Select(xs, keep);
    var ps := Positions(keep);
    forall x | exists i :: 0 <= i < |xs| && keep[i] && xs[i] == x
      ensures x in ys
    {
      var i :| 0 <= i < |xs| && keep[i] && xs[i] == x;
      var k :| 0 <= k < |ps| && ps[k] == i;
      assert ys[k] == x;
    }
  }

  /** A mask with every flag set selects everything. */
  lemma {:induction false} SelectAll<T>(xs: seq<T>, keep: seq<bool>)
    requires |keep| == |xs|
    requires forall i :: 0 <= i < |keep| ==> keep[i]
    ensures Select(xs, keep) == xs
  {
    if |xs| > 0 {
      var n := |xs| - 1;
      SelectAll(xs[..n], keep[..n]);
      assert xs[..n] + [xs[n]] == xs;
    }
  }

  /** A mask with no flag set selects nothing. */
  lemma {:induction false} SelectNone<T>(xs: seq<T>, keep: seq<bool>)
    requires |keep| == |xs|
    requires forall i :: 0 <= i < |keep| ==> !keep[i]
    ensures Select(xs, keep) == []
  {
    if |xs| > 0 {
      var n := |xs| - 1;
      SelectNone(xs[..n], keep[..n]);
    }
  }

  /* ---------------------------------------------------------------------- */
  /* Grouping                                                                 */
  /* ---------------------------------------------------------------------- */

  /** The grouping columns: `Index`, then `Lane` and `Index2` when the frame
      has them. */
  function GroupColumns(columns: set<string>): (g: seq<string>)
    ensures |g| >= 1 && g[0] == IndexColumn
    ensures forall i :: 0 <= i < |g| ==> g[i] == IndexColumn || g[i] in columns
    ensures forall i :: 0 <= i < |g| ==> g[i] in {IndexColumn, LaneColumn, Index2Column}
    ensures LaneColumn in g <==> LaneColumn in columns
    ensures Index2Column in g <==> Index2Column in columns
    ensures forall i, j :: 0 <= i < j < |g| ==> g[i] != g[j]
  {
    [IndexColumn]
    + (if LaneColumn in columns then [LaneColumn] else [])
    + (if Index2Column in columns then [Index2Column] else [])
  }

  /** A row's group key: its cells under the grouping columns, or `None`
      when one of them is missing (pandas leaves such rows out of every group). */
  function GroupKey(row: Row, g: seq<string>): (key: Option<seq<string>>)
    ensures key.Some? ==> |key.value| == |g|
  {
    if forall i :: 0 <= i < |g| ==> g[i] in row
    then Some(seq(|g|, i requires 0 <= i < |g| && g[i] in row => row[g[i]]))
    else None
  }

  /** Two rows fall into the same group exactly when both have every grouping
      column and agree on each of them. */
  lemma SameGroup(a: Row, b: Row, g: seq<string>)
    ensures (GroupKey(a, g).Some? && GroupKey(a, g) == GroupKey(b, g))
            <==> forall i :: 0 <= i < |g| ==> g[i] in a && g[i] in b && a[g[i]] == b[g[i]]
  {
    if GroupKey(a, g).Some? && GroupKey(a, g) == GroupKey(b, g) {
      forall i | 0 <= i < |g| ensures g[i] in a && g[i] in b && a[g[i]] == b[g[i]] {
        assert GroupKey(a, g).value[i] == GroupKey(b, g).value[i];
      }
    }
    if forall i :: 0 <= i < |g| ==> g[i] in a && g[i] in b && a[g[i]] == b[g[i]] {
      assert GroupKey(a, g).Some? && GroupKey(b, g).Some?;
      assert GroupKey(a, g).value == GroupKey(b, g).value;
    }
  }

  /** Whether `row` belongs to the group with key `key`. */
  predicate InGroup(row: Row, g: seq<string>, key: seq<string>) {
    GroupKey(row, g) == Some(key)
  }

  /** Whether `row` has the Sample_ID `id`. */
  predicate HasId(row: Row, id: string) {
    SampleIdColumn in row && row[SampleIdColumn] == id
  }

  /** The ids one row contributes to the group with key `key`. */
  function Contribution(row: Row, g: seq<string>, key: seq<string>): set<string> {
    if InGroup(row, g, key) && SampleIdColumn in row then {row[SampleIdColumn]} else {}
  }

  /** The distinct Sample_IDs in the group with key `key`; a missing Sample_ID
      is not counted. */
  function SampleIds(rows: seq<Row>, g: seq<string>, key: seq<string>): set<string> {
    if |rows| == 0 then {}
    else
      var n := |rows| - 1;
      SampleIds(rows[..n], g, key) + Contribution(rows[n], g, key)
  }

  /** An id is counted for a group exactly when some row of the group has it. */
  lemma {:induction false} SampleIdsMembers(rows: seq<Row>, g: seq<string>, key: seq<string>)
    ensures forall id :: id in SampleIds(rows, g, key) <==>
              exists i :: 0 <= i < |rows| && InGroup(rows[i], g, key) && HasId(rows[i], id)
  {
    if |rows| > 0 {
      var n := |rows| - 1;
      SampleIdsMembers(rows[..n], g, key);
      forall id ensures id in SampleIds(rows, g, key) <==>
                        exists i :: 0 <= i < |rows| && InGroup(rows[i], g, key) && HasId(rows[i], id)
      {
        if exists i :: 0 <= i < |rows| && InGroup(rows[i], g, key) && HasId(rows[i], id) {
          var i :| 0 <= i < |rows| && InGroup(rows[i], g, key) && HasId(rows[i], id);
          if i < n {
            assert rows[..n][i] == rows[i];
          }
        }
        if id in SampleIds(rows[..n], g, key) {
          var i :| 0 <= i < n && InGroup(rows[..n][i], g, key) && HasId(rows[..n][i], id);
          assert rows[..n][i] == rows[i];
        }
      }
    }
  }

  /** A set has more than one element exactly when it holds two different ones. */
  lemma MoreThanOne<T>(s: set<T>)
    ensures |s| > 1 <==> exists a, b :: a in s && b in s && a != b
  {
    if |s| > 1 {
      var a :| a in s;
      assert |s - {a}| == |s| - 1;
      var b :| b in s - {a};
    }
    if exists a, b :: a in s && b in s && a != b {
      var a, b :| a in s && b in s && a != b;
      assert {a, b} <= s;
      assert |{a, b}| == 2;
      SubsetCard({a, b}, s);
    }
  }

  /** A subset is no larger than its superset. */
  lemma {:induction false} SubsetCard<T>(a: set<T>, b: set<T>)
    requires a <= b
    ensures |a| <= |b|
    decreases |b|
  {
    if b != {} {
      var x :| x in b;
      SubsetCard(a - {x}, b - {x});
    }
  }

  /* ---------------------------------------------------------------------- */
  /* The detector                                                             */
  /* ---------------------------------------------------------------------- */

  /** Whether `row`'s group among `all` carries more than one distinct
      Sample_ID (`transform('nunique') > 1`). */
  predicate Collides(all: seq<Row>, g: seq<string>, row: Row) {
    match GroupKey(row, g)
    case None => false
    case Some(key) => |SampleIds(all, g, key)| > 1
  }

  /** Whether two rows carry different Sample_IDs (both present). */
  predicate DifferentIds(a: Row, b: Row) {
    SampleIdColumn in a && SampleIdColumn in b && a[SampleIdColumn] != b[SampleIdColumn]
  }

  /** Two rows of the group of `row`, with different Sample_IDs. */
  ghost predicate Witnessed(all: seq<Row>, g: seq<string>, row: Row) {
    match GroupKey(row, g)
    case None => false
    case Some(key) =>
      exists i, j :: 0 <= i < |all| && 0 <= j < |all| && InGroup(all[i], g, key)
                     && InGroup(all[j], g, key) && DifferentIds(all[i], all[j])
  }

  /** A colliding row has two rows of its group with different Sample_IDs. */
  lemma CollisionWitnessed(all: seq<Row>, g: seq<string>, row: Row)
    requires Collides(all, g, row)
    ensures Witnessed(all, g, row)
  {
    var key := GroupKey(row, g).value;
    var ids := SampleIds(all, g, key);
    SampleIdsMembers(all, g, key);
    MoreThanOne(ids);
    var a, b :| a in ids && b in ids && a != b;
    var i :| 0 <= i < |all| && InGroup(all[i], g, key) && HasId(all[i], a);
    var j :| 0 <= j < |all| && InGroup(all[j], g, key) && HasId(all[j], b);
    assert DifferentIds(all[i], all[j]);
  }

  /** Two rows of a group with different Sample_IDs make the group collide. */
  lemma WitnessedCollision(all: seq<Row>, g: seq<string>, row: Row)
    requires Witnessed(all, g, row)
    ensures Collides(all, g, row)
  {
    var key := GroupKey(row, g).value;
    var ids := SampleIds(all, g, key);
    var i, j :| 0 <= i < |all| && 0 <= j < |all| && InGroup(all[i], g, key)
                && InGroup(all[j], g, key) && DifferentIds(all[i], all[j]);
    SampleIdsMembers(all, g, key);
    var a, b := all[i][SampleIdColumn], all[j][SampleIdColumn];
    assert HasId(all[i], a) && HasId(all[j], b);
    assert a in ids && b in ids && a != b;
    MoreThanOne(ids);
  }

  /** A row collides exactly when two rows of its group carry different
      Sample_IDs. */
  lemma CollidesIff(all: seq<Row>, g: seq<string>, row: Row)
    ensures Collides(all, g, row) <==> Witnessed(all, g, row)
  {
    if Collides(all, g, row) {
      CollisionWitnessed(all, g, row);
    }
    if Witnessed(all, g, row) {
      WitnessedCollision(all, g, row);
    }
  }

  /** The collision mask over the rows. */
  function Mask(rows: seq<Row>, g: seq<string>): (mask: seq<bool>)
    ensures |mask| == |rows|
  {
    seq(|rows|, i requires 0 <= i < |rows| => Collides(rows, g, rows[i]))
  }

  /** The detector: an empty frame is returned as it is; a frame without an
      `Index` or a `Sample_ID` column gives an empty frame; otherwise the rows
      whose group holds more than one distinct Sample_ID, in order, under the
      same columns. */
  function DetectCollision(f: Frame): (r: Frame)
    ensures IsEmpty(f) ==> r == f
    ensures !IsEmpty(f) ==> r.columns == {} || r.columns == f.columns
    ensures |r.rows| <= |f.rows|
  {
    if IsEmpty(f) then f
    else if IndexColumn !in f.columns || SampleIdColumn !in f.columns then Frame({}, [])
    else
      var g := GroupColumns(f.columns);
      Frame(f.columns, Select(f.rows, Mask(f.rows, g)))
  }

  /** The frame has both columns the detector needs. */
  predicate Checkable(f: Frame) {
    IndexColumn in f.columns && SampleIdColumn in f.columns
  }

  /** Without rows, or without an `Index` or `Sample_ID` column, the result is
      an empty frame. */
  lemma EmptyResult(f: Frame)
    requires |f.rows| == 0 || !Checkable(f)
    ensures IsEmpty(DetectCollision(f))
  {
  }

  /** The reported rows are a subsequence of the input: the rows at an
      increasing run of positions, which are exactly the colliding ones. */
  lemma DetectSubsequence(f: Frame)
    requires !IsEmpty(f) && Checkable(f)
    ensures var g := GroupColumns(f.columns);
            var out := DetectCollision(f).rows;
            var ps := Positions(Mask(f.rows, g));
            && |ps| == |out|
            && (forall k :: 0 <= k < |ps| ==> ps[k] < |f.rows| && out[k] == f.rows[ps[k]])
            && (forall k, l :: 0 <= k < l < |ps| ==> ps[k] < ps[l])
            && (forall i :: 0 <= i < |f.rows| ==> (i in ps <==> Collides(f.rows, g, f.rows[i])))
  {
    var g := GroupColumns(f.columns);
    var mask := Mask(f.rows, g);
    SelectPositions(f.rows, mask);
    var ps := Positions(mask);
    forall i | 0 <= i < |f.rows| && i in ps ensures Collides(f.rows, g, f.rows[i]) {
      var k :| 0 <= k < |ps| && ps[k] == i;
    }
  }

  /** A row is reported exactly when it is a row of the input and two rows of
      its group carry different Sample_IDs. */
  lemma DetectMembers(f: Frame)
    requires !IsEmpty(f) && Checkable(f)
    ensures var g := GroupColumns(f.columns);
            forall x :: x in DetectCollision(f).rows <==> x in f.rows && Witnessed(f.rows, g, x)
  {
    var g := GroupColumns(f.columns);
    var mask := Mask(f.rows, g);
    SelectMembers(f.rows, mask);
    forall x ensures x in DetectCollision(f).rows <==> x in f.rows && Witnessed(f.rows, g, x) {
      CollidesIff(f.rows, g, x);
      if x in f.rows && Collides(f.rows, g, x) {
        var i :| 0 <= i < |f.rows| && f.rows[i] == x;
        assert mask[i];
      }
    }
  }

  /** A row that is not reported, when every row has the grouping columns
      and a Sample_ID, shares its group only with rows of its own Sample_ID. */
  lemma ExcludedRowsAgree(f: Frame, i: nat)
    requires !IsEmpty(f) && Checkable(f)
    requires i < |f.rows|
    requires f.rows[i] !in DetectCollision(f).rows
    requires GroupKey(f.rows[i], GroupColumns(f.columns)).Some? && SampleIdColumn in f.rows[i]
    ensures var g := GroupColumns(f.columns);
            forall j :: 0 <= j < |f.rows| && GroupKey(f.rows[j], g) == GroupKey(f.rows[i], g)
                        && SampleIdColumn in f.rows[j] ==>
                          f.rows[j][SampleIdColumn] == f.rows[i][SampleIdColumn]
  {
    DetectMembers(f);
  }

  /** Rows that share their group only with rows of the same Sample_ID never
      collide: repeating one sample's index combination is not a collision.
      Rows missing a grouping column are in no group and are not constrained. */
  lemma SameIdNeverCollides(f: Frame)
    requires !IsEmpty(f) && Checkable(f)
    requires var g := GroupColumns(f.columns);
             forall i, j :: 0 <= i < |f.rows| && 0 <= j < |f.rows|
                            && GroupKey(f.rows[i], g).Some?
                            && GroupKey(f.rows[i], g) == GroupKey(f.rows[j], g)
                            && SampleIdColumn in f.rows[i] && SampleIdColumn in f.rows[j] ==>
                              f.rows[i][SampleIdColumn] == f.rows[j][SampleIdColumn]
    ensures DetectCollision(f).rows == []
  {
    var g := GroupColumns(f.columns);
    var mask := Mask(f.rows, g);
    forall i | 0 <= i < |mask| ensures !mask[i] {
      CollidesIff(f.rows, g, f.rows[i]);
    }
    SelectNone(f.rows, mask);
  }

  /** Rows of a group that holds two different Sample_IDs are all reported. */
  lemma GroupMembersReported(f: Frame, key: seq<string>, i: nat, j: nat, k: nat)
    requires !IsEmpty(f) && Checkable(f)
    requires i < |f.rows| && j < |f.rows| && k < |f.rows|
    requires var g := GroupColumns(f.columns);
             InGroup(f.rows[i], g, key) && InGroup(f.rows[j], g, key) && InGroup(f.rows[k], g, key)
    requires DifferentIds(f.rows[i], f.rows[j])
    ensures f.rows[k] in DetectCollision(f).rows
  {
    DetectMembers(f);
    assert Witnessed(f.rows, GroupColumns(f.columns), f.rows[k]);
  }

  /** A reported row still collides among the reported rows: the two rows
      that witnessed its collision are reported as well. */
  lemma ReportedStillCollides(f: Frame, x: Row)
    requires !IsEmpty(f) && Checkable(f)
    requires x in DetectCollision(f).rows
    ensures Collides(DetectCollision(f).rows, GroupColumns(f.columns), x)
  {
    var g := GroupColumns(f.columns);
    var out := DetectCollision(f).rows;
    DetectMembers(f);
    assert Witnessed(f.rows, g, x);
    var key := GroupKey(x, g).value;
    var i, j :| 0 <= i < |f.rows| && 0 <= j < |f.rows| && InGroup(f.rows[i], g, key)
                && InGroup(f.rows[j], g, key) && DifferentIds(f.rows[i], f.rows[j]);
    GroupMembersReported(f, key, i, j, i);
    GroupMembersReported(f, key, i, j, j);
    var i' :| 0 <= i' < |out| && out[i'] == f.rows[i];
    var j' :| 0 <= j' < |out| && out[j'] == f.rows[j];
    assert Witnessed(out, g, x);
    WitnessedCollision(out, g, x);
  }

  /** Running the detector on its own output changes nothing. */
  lemma DetectIdempotent(f: Frame)
    ensures DetectCollision(DetectCollision(f)) == DetectCollision(f)
  {
    if !IsEmpty(f) && Checkable(f) {
      var g := GroupColumns(f.columns);
      var out := DetectCollision(f).rows;
      if out != [] {
        var mask := Mask(out, g);
        forall k | 0 <= k < |out| ensures mask[k] {
          ReportedStillCollides(f, out[k]);
        }
        SelectAll(out, mask);
      }
    }
  }

  /* ---------------------------------------------------------------------- */
  /* The two test tables                                                      */
  /* ---------------------------------------------------------------------- */

  /** A row with all four columns of the test tables. */
  function Record(lane: string, id: string, index: string, index2: string): Row {
    map[LaneColumn := lane, SampleIdColumn := id, IndexColumn := index, Index2Column := index2]
  }

  /** The columns of both test tables. */
  const TestColumns: set<string> := {LaneColumn, SampleIdColumn, IndexColumn, Index2Column}

  /** With all four columns present a row is grouped by index, lane, index2. */
  lemma RecordKey(lane: string, id: string, index: string, index2: string)
    ensures GroupColumns(TestColumns) == [IndexColumn, LaneColumn, Index2Column]
    ensures GroupKey(Record(lane, id, index, index2), GroupColumns(TestColumns))
            == Some([index, lane, index2])
  {
    var g := GroupColumns(TestColumns);
    assert g == [IndexColumn, LaneColumn, Index2Column];
    var key := GroupKey(Record(lane, id, index, index2), g);
    assert key.Some?;
    assert key.value == [index, lane, index2];
  }

  /** The same index pair on two different lanes is no collision. */
  lemma SameIndicesOnTwoLanes()
    ensures var f := Frame(TestColumns, [
                       Record("1", "S1", "AAAA", "CCCC"),
                       Record("1", "S2", "TTTT", "GGGG"),
                       Record("2", "S3", "AAAA", "CCCC")]);
            IsEmpty(DetectCollision(f))
  {
    var rows := [
      Record("1", "S1", "AAAA", "CCCC"),
      Record("1", "S2", "TTTT", "GGGG"),
      Record("2", "S3", "AAAA", "CCCC")];
    var f := Frame(TestColumns, rows);
    var g := GroupColumns(TestColumns);
    RecordKey("1", "S1", "AAAA", "CCCC");
    RecordKey("1", "S2", "TTTT", "GGGG");
    RecordKey("2", "S3", "AAAA", "CCCC");
    assert "AAAA" != "TTTT" && "1" != "2";
    forall i, j | 0 <= i < |rows| && 0 <= j < |rows| && GroupKey(rows[i], g) == GroupKey(rows[j], g)
      ensures i == j
    {
    }
    SameIdNeverCollides(f);
  }

  /** The rows of the second test table. */
  function SharedTable(): seq<Row> {
    [Record("1", "S1", "AAAA", "CCCC"),
     Record("1", "S2", "AAAA", "CCCC"),
     Record("1", "S3", "TTTT", "GGGG")]
  }

  /** In the second test table the shared group holds S1 and S2, the other
      group only S3. */
  lemma SharedTableGroups()
    ensures var rows, g := SharedTable(), GroupColumns(TestColumns);
            && SampleIds(rows, g, ["AAAA", "1", "CCCC"]) == {"S1", "S2"}
            && SampleIds(rows, g, ["TTTT", "1", "GGGG"]) == {"S3"}
  {
    var rows, g := SharedTable(), GroupColumns(TestColumns);
    RecordKey("1", "S1", "AAAA", "CCCC");
    RecordKey("1", "S2", "AAAA", "CCCC");
    RecordKey("1", "S3", "TTTT", "GGGG");
    assert "AAAA" != "TTTT";
    SampleIdsOfThree(rows[0], rows[1], rows[2], g, ["AAAA", "1", "CCCC"]);
    SampleIdsOfThree(rows[0], rows[1], rows[2], g, ["TTTT", "1", "GGGG"]);
    assert [rows[0], rows[1], rows[2]] == rows;
  }

  /** In the second test table exactly the first two rows collide. */
  lemma SharedTableMask()
    ensures Mask(SharedTable(), GroupColumns(TestColumns)) == [true, true, false]
  {
    var rows, g := SharedTable(), GroupColumns(TestColumns);
    SharedTableGroups();
    RecordKey("1", "S1", "AAAA", "CCCC");
    RecordKey("1", "S2", "AAAA", "CCCC");
    RecordKey("1", "S3", "TTTT", "GGGG");
    assert "S1" != "S2";
  }

  /** Two samples sharing an index pair on one lane are both reported, in
      order, and the third sample is not. */
  lemma SharedIndicesOnOneLane()
    ensures var out := DetectCollision(Frame(TestColumns, SharedTable())).rows;
            && out == [Record("1", "S1", "AAAA", "CCCC"), Record("1", "S2", "AAAA", "CCCC")]
            && forall x :: x in out ==> x[SampleIdColumn] != "S3"
  {
    var rows := SharedTable();
    SharedTableMask();
    SelectOfThree(rows[0], rows[1], rows[2], true, true, false);
    assert [rows[0], rows[1], rows[2]] == rows;
  }

  /** The group ids of a three-row table, row by row. */
  lemma SampleIdsOfThree(a: Row, b: Row, c: Row, g: seq<string>, key: seq<string>)
    ensures SampleIds([a, b, c], g, key)
            == Contribution(a, g, key) + Contribution(b, g, key) + Contribution(c, g, key)
  {
    var rows := [a, b, c];
    assert rows[..2] == [a, b] && rows[..2][..1] == [a] && [a][..0] == [];
    assert SampleIds([a], g, key) == Contribution(a, g, key);
    assert SampleIds([a, b], g, key) == Contribution(a, g, key) + Contribution(b, g, key);
  }

  /** The selection from three items, item by item. */
  lemma SelectOfThree<T>(a: T, b: T, c: T, ka: bool, kb: bool, kc: bool)
    ensures Select([a, b, c], [ka, kb, kc])
            == (if ka then [a] else []) + (if kb then [b] else []) + (if kc then [c] else [])
  {
    var xs, keep := [a, b, c], [ka, kb, kc];
    assert xs[..2] == [a, b] && xs[..2][..1] == [a] && [a][..0] == [];
    assert keep[..2] == [ka, kb] && keep[..2][..1] == [ka] && [ka][..0] == [];
    assert Select([a], [ka]) == (if ka then [a] else []);
    assert Select([a, b], [ka, kb]) == (if ka then [a] else []) + (if kb then [b] else []);
  }

  /* ---------------------------------------------------------------------- */
  /* The grouping algorithm                                                   */
  /* ---------------------------------------------------------------------- */

  /** Extending the rows by one adds that row's contribution to every group. */
  lemma SampleIdsPush(rows: seq<Row>, i: nat, g: seq<string>)
    requires i < |rows|
    ensures forall key :: SampleIds(rows[..i + 1], g, key)
                          == SampleIds(rows[..i], g, key) + Contribution(rows[i], g, key)
  {
    assert rows[..i + 1][..i] == rows[..i];
  }

  /** One pass gathering the distinct Sample_IDs of every group that occurs. */
  method CollectGroups(rows: seq<Row>, g: seq<string>) returns (groups: map<seq<string>, set<string>>)
    ensures forall key :: key in groups ==> groups[key] == SampleIds(rows, g, key)
    ensures forall key :: key !in groups ==> SampleIds(rows, g, key) == {}
  {
    groups := map[];
    var i := 0;
    while i < |rows|
      invariant 0 <= i <= |rows|
      invariant forall key :: key in groups ==> groups[key] == SampleIds(rows[..i], g, key)
      invariant forall key :: key !in groups ==> SampleIds(rows[..i], g, key) == {}
    {
      var row := rows[i];
      SampleIdsPush(rows, i, g);
      match GroupKey(row, g) {
        case Some(key) =>
          var ids := if key in groups then groups[key] else {};
          var added: set<string> := if SampleIdColumn in row then {row[SampleIdColumn]} else {};
          assert added == Contribution(row, g, key);
          groups := groups[key := ids + added];
        case None =>
      }
      i := i + 1;
    }
    assert rows[..i] == rows;
  }

  /** One pass keeping, in order, the rows whose group gathered more than one
      Sample_ID. */
  method KeepColliding(rows: seq<Row>, g: seq<string>, groups: map<seq<string>, set<string>>)
    returns (kept: seq<Row>)
    requires forall key :: key in groups ==> groups[key] == SampleIds(rows, g, key)
    requires forall key :: key !in groups ==> SampleIds(rows, g, key) == {}
    ensures kept == Select(rows, Mask(rows, g))
  {
    kept := [];
    ghost var mask := Mask(rows, g);
    var i := 0;
    while i < |rows|
      invariant 0 <= i <= |rows|
      invariant kept == Select(rows[..i], mask[..i])
    {
      assert rows[..i + 1][..i] == rows[..i];
      assert mask[..i + 1][..i] == mask[..i];
      var collides := match GroupKey(rows[i], g)
        case None => false
        case Some(key) => key in groups && |groups[key]| > 1;
      assert collides == mask[i];
      if collides {
        kept := kept + [rows[i]];
      }
      i := i + 1;
    }
    assert rows[..i] == rows && mask[..i] == mask;
  }

  /** A two-pass algorithm equivalent to the `transform('nunique')` mask: one
      pass collecting the distinct Sample_IDs of every group, then one pass
      keeping the rows whose group collected more than one. */
  method FindCollisions(f: Frame) returns (r: Frame)
    ensures r == DetectCollision(f)
  {
    if |f.rows| == 0 || f.columns == {} {
      return f;
    }
    if IndexColumn !in f.columns || SampleIdColumn !in f.columns {
      return Frame({}, []);
    }
    var g := GroupColumns(f.columns);
    var groups := CollectGroups(f.rows, g);
    var kept := KeepColliding(f.rows, g, groups);
    return Frame(f.columns, kept);
  }
}
