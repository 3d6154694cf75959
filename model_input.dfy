/** The model input builder: shuttles inner-joined to their reviews, the shuttle id
    dropped, the result inner-joined to the companies, and every row with a missing
    cell dropped. */
module ModelInput {
  import opened Tables

  predicate Disjoint(a: seq<string>, b: seq<string>) {
    forall c :: c in a ==> c !in b
  }

  predicate HasKey(rows: seq<Row>, key: string) {
    forall m :: 0 <= m < |rows| ==> key in rows[m]
  }

  // ---------------------------------------------------------------------------
  // Inner join of rows on one key column per side.

  /** The rows of `right` whose key equals the key of `left`, each joined to `left`, in order. */
  function MatchesOf(left: Row, right: seq<Row>, lk: string, rk: string): (out: seq<Row>)
    requires lk in left && HasKey(right, rk)
    ensures |out| <= |right|
  {
    if right == [] then []
    else (if SameValue(left[lk], right[0][rk]) then [left + right[0]] else []) + MatchesOf(left, right[1..], lk, rk)
  }

  /** `left.merge(right, left_on=lk, right_on=rk)` on rows: for each left row in order,
      its matching right rows in order. */
  function Merge(left: seq<Row>, right: seq<Row>, lk: string, rk: string): (out: seq<Row>)
    requires HasKey(left, lk) && HasKey(right, rk)
    ensures |out| <= |left| * |right|
  {
    if left == [] then [] else MatchesOf(left[0], right, lk, rk) + Merge(left[1..], right, lk, rk)
  }

  lemma {:induction false} MatchesOfMembership(left: Row, right: seq<Row>, lk: string, rk: string)
    requires lk in left && HasKey(right, rk)
    ensures forall x :: x in MatchesOf(left, right, lk, rk) <==>
              exists j :: 0 <= j < |right| && SameValue(left[lk], right[j][rk]) && x == left + right[j]
  {
    if right != [] {
      MatchesOfMembership(left, right[1..], lk, rk);
      forall x | x in MatchesOf(left, right[1..], lk, rk)
        ensures exists j :: 0 <= j < |right| && SameValue(left[lk], right[j][rk]) && x == left + right[j]
      {
        var j :| 0 <= j < |right[1..]| && SameValue(left[lk], right[1..][j][rk]) && x == left + right[1..][j];
        assert right[1..][j] == right[j + 1];
      }
      forall x, j | 0 <= j < |right| && SameValue(left[lk], right[j][rk]) && x == left + right[j]
        ensures x in MatchesOf(left, right, lk, rk)
      {
        if j > 0 {
          assert right[j] == right[1..][j - 1];
        }
      }
    }
  }

  /** Matching against two runs of right rows gives the matches of the first run, then
      those of the second: each matching right row yields its own joined row, in order. */
  lemma {:induction false} MatchesOfAppend(x: Row, r1: seq<Row>, r2: seq<Row>, lk: string, rk: string)
    requires lk in x && HasKey(r1, rk) && HasKey(r2, rk)
    ensures HasKey(r1 + r2, rk)
    ensures MatchesOf(x, r1 + r2, lk, rk) == MatchesOf(x, r1, lk, rk) + MatchesOf(x, r2, lk, rk)
  {
    if r1 == [] {
      assert r1 + r2 == r2;
    } else {
      assert (r1 + r2)[1..] == r1[1..] + r2;
      MatchesOfAppend(x, r1[1..], r2, lk, rk);
    }
  }

  /** One right row gives one joined row when the keys are equal, and none otherwise. */
  lemma MatchesOfSingle(x: Row, y: Row, lk: string, rk: string)
    requires lk in x && rk in y
    ensures MatchesOf(x, [y], lk, rk) == if SameValue(x[lk], y[rk]) then [x + y] else []
  {
    assert [y][1..] == [];
  }

  /** Merging two runs of left rows gives the join of the first run, then that of the
      second: the join keeps the left order and never merges or drops duplicate pairs. */
  lemma {:induction false} MergeAppend(a: seq<Row>, b: seq<Row>, right: seq<Row>, lk: string, rk: string)
    requires HasKey(a, lk) && HasKey(b, lk) && HasKey(right, rk)
    ensures HasKey(a + b, lk)
    ensures Merge(a + b, right, lk, rk) == Merge(a, right, lk, rk) + Merge(b, right, lk, rk)
  {
    if a == [] {
      assert a + b == b;
    } else {
      assert (a + b)[1..] == a[1..] + b;
      MergeAppend(a[1..], b, right, lk, rk);
    }
  }

  /** A single left row contributes exactly its own matches. */
  lemma MergeSingle(x: Row, right: seq<Row>, lk: string, rk: string)
    requires lk in x && HasKey(right, rk)
    ensures Merge([x], right, lk, rk) == MatchesOf(x, right, lk, rk)
  {
    assert [x][1..] == [];
  }

  /** A left row meeting two equal right rows yields two equal joined rows. */
  lemma MergeKeepsDuplicates(x: Row, y: Row, lk: string, rk: string)
    requires lk in x && rk in y && SameValue(x[lk], y[rk])
    ensures Merge([x], [y, y], lk, rk) == [x + y, x + y]
  {
    MergeSingle(x, [y, y], lk, rk);
    MatchesOfAppend(x, [y], [y], lk, rk);
    MatchesOfSingle(x, y, lk, rk);
  }

  /** A row is in the join exactly when it is a left row joined to a right row with an equal key. */
  lemma {:induction false} MergeMembership(left: seq<Row>, right: seq<Row>, lk: string, rk: string)
    requires HasKey(left, lk) && HasKey(right, rk)
    ensures forall x :: x in Merge(left, right, lk, rk) <==>
              exists i, j :: 0 <= i < |left| && 0 <= j < |right| &&
                             SameValue(left[i][lk], right[j][rk]) && x == left[i] + right[j]
  {
    if left != [] {
      MatchesOfMembership(left[0], right, lk, rk);
      MergeMembership(left[1..], right, lk, rk);
      forall x | x in Merge(left[1..], right, lk, rk)
        ensures exists i, j :: 0 <= i < |left| && 0 <= j < |right| &&
                               SameValue(left[i][lk], right[j][rk]) && x == left[i] + right[j]
      {
        var i, j :| 0 <= i < |left[1..]| && 0 <= j < |right| &&
                    SameValue(left[1..][i][lk], right[j][rk]) && x == left[1..][i] + right[j];
        assert left[1..][i] == left[i + 1];
      }
      forall x, i, j | 0 <= i < |left| && 0 <= j < |right| &&
                       SameValue(left[i][lk], right[j][rk]) && x == left[i] + right[j]
        ensures x in Merge(left, right, lk, rk)
      {
        if i > 0 {
          assert left[i] == left[1..][i - 1];
        }
      }
    }
  }

  // ---------------------------------------------------------------------------
  // Dropping a column and dropping incomplete rows.

  /** The column names without `name`. */
  function Without(columns: seq<string>, name: string): (r: seq<string>)
    ensures forall c :: c in r <==> c in columns && c != name
    ensures Distinct(columns) ==> Distinct(r)
  {
    if columns == [] then []
    else if columns[0] == name then Without(columns[1..], name)
    else
      var rest := Without(columns[1..], name);
      assert Distinct(columns) ==> columns[0] !in columns[1..] && Distinct(columns[1..]);
      DistinctAppend([columns[0]], rest);
      [columns[0]] + rest
  }

  /** Two lists of distinct names with no name in common make one list of distinct names. */
  lemma DistinctAppend(a: seq<string>, b: seq<string>)
    ensures Distinct(a) && Distinct(b) && Disjoint(a, b) ==> Distinct(a + b)
  {
    if Distinct(a) && Distinct(b) && Disjoint(a, b) {
      forall i, j | 0 <= i < j < |a + b|
        ensures (a + b)[i] != (a + b)[j]
      {
        if j < |a| {
        } else if i < |a| {
          assert (a + b)[i] in a && (a + b)[j] in b;
        } else {
          assert (a + b)[i] == b[i - |a|] && (a + b)[j] == b[j - |a|];
        }
      }
    }
  }

  /** `t.drop(name, axis=1)`: the table without that column; an absent column raises. */
  function DropColumn(t: Table, name: string): (r: Result<Table>)
    requires WellFormed(t)
    ensures r.Failure? <==> name !in t.columns
    ensures r.Failure? ==> r.error == MissingColumn(name)
    ensures r.Success? ==> WellFormed(r.value) && r.value.columns == Without(t.columns, name)
    ensures r.Success? ==> |r.value.rows| == |t.rows|
    ensures r.Success? ==> forall m :: 0 <= m < |t.rows| ==> r.value.rows[m] == t.rows[m] - {name}
  {
    if name !in t.columns then Failure(MissingColumn(name))
    else
      var columns := Without(t.columns, name);
      assert ColumnSet(columns) == ColumnSet(t.columns) - {name};
      Success(Table(columns, seq(|t.rows|, m requires 0 <= m < |t.rows| => t.rows[m] - {name})))
  }

  /** `rows.dropna()`: the rows without a missing cell, in order. Every complete row is
      kept as often as it occurs, and every incomplete row is gone. */
  function DropNA(rows: seq<Row>): (r: seq<Row>)
    ensures |r| <= |rows|
    ensures forall x :: x in r <==> x in rows && NoMissing(x)
    ensures forall x :: multiset(r)[x] == (if NoMissing(x) then multiset(rows)[x] else 0)
  {
    if rows == [] then []
    else
      assert rows == [rows[0]] + rows[1..];
      if NoMissing(rows[0]) then [rows[0]] + DropNA(rows[1..])
      else DropNA(rows[1..])
  }

  /** Dropping incomplete rows works piece by piece, so it keeps the order of the rows. */
  lemma {:induction false} DropNAAppend(a: seq<Row>, b: seq<Row>)
    ensures DropNA(a + b) == DropNA(a) + DropNA(b)
  {
    if a == [] {
      assert a + b == b;
    } else {
      assert (a + b)[1..] == a[1..] + b;
      DropNAAppend(a[1..], b);
    }
  }

  /** A single row is kept exactly when it is complete. */
  lemma DropNASingle(x: Row)
    ensures DropNA([x]) == if NoMissing(x) then [x] else []
  {
    assert [x][1..] == [];
  }

  // ---------------------------------------------------------------------------
  // The two-step join.

  /** `left.merge(right, left_on=lk, right_on=rk)` on tables: the columns of both, and a
      missing key column raises. Column names of the two sides are disjoint. */
  function MergeTables(left: Table, right: Table, lk: string, rk: string): (r: Result<Table>)
    requires WellFormed(left) && WellFormed(right) && Disjoint(left.columns, right.columns)
    ensures r.Failure? <==> lk !in left.columns || rk !in right.columns
    ensures r.Failure? ==> r.error.MissingColumn?
    ensures r.Success? ==> WellFormed(r.value) && r.value.columns == left.columns + right.columns
    ensures r.Success? ==> r.value.rows == Merge(left.rows, right.rows, lk, rk)
  {
    if lk !in left.columns then Failure(MissingColumn(lk))
    else if rk !in right.columns then Failure(MissingColumn(rk))
    else
      MergeKeys(left, right, lk, rk);
      DistinctAppend(left.columns, right.columns);
      Success(Table(left.columns + right.columns, Merge(left.rows, right.rows, lk, rk)))
  }

  /** Every joined row has the columns of both sides. */
  lemma MergeKeys(left: Table, right: Table, lk: string, rk: string)
    requires WellFormed(left) && WellFormed(right) && lk in left.columns && rk in right.columns
    ensures forall m :: 0 <= m < |Merge(left.rows, right.rows, lk, rk)| ==>
              Merge(left.rows, right.rows, lk, rk)[m].Keys == ColumnSet(left.columns + right.columns)
  {
    var rows := Merge(left.rows, right.rows, lk, rk);
    MergeMembership(left.rows, right.rows, lk, rk);
    assert ColumnSet(left.columns + right.columns) == ColumnSet(left.columns) + ColumnSet(right.columns);
    forall m | 0 <= m < |rows|
      ensures rows[m].Keys == ColumnSet(left.columns + right.columns)
    {
      assert rows[m] in rows;
    }
  }

  /** A shuttle row with its review: the shuttle's own `id` gone. */
  function Rated(shuttle: Row, review: Row): Row {
    (shuttle - {"id"}) + review
  }

  /** The columns the model input table has. */
  function ModelInputColumns(shuttles: Table, companies: Table, reviews: Table): seq<string> {
    Without(shuttles.columns, "id") + reviews.columns + companies.columns
  }

  /** What the source needs of the three tables for the joins to keep every column name:
      no shared names between shuttles and reviews, nor between the rated shuttles and
      companies. */
  predicate JoinableInputs(shuttles: Table, companies: Table, reviews: Table) {
    WellFormed(shuttles) && WellFormed(companies) && WellFormed(reviews) &&
    Disjoint(shuttles.columns, reviews.columns) &&
    Disjoint(Without(shuttles.columns, "id") + reviews.columns, companies.columns)
  }

  /** Every key column the joins look up is present. */
  predicate HasJoinKeys(shuttles: Table, companies: Table, reviews: Table) {
    "id" in shuttles.columns && "shuttle_id" in reviews.columns && "id" in companies.columns &&
    "company_id" in Without(shuttles.columns, "id") + reviews.columns
  }

  /** The raw two-step join of `create_model_input_table`: shuttles merged with their
      reviews, the shuttle `id` dropped, the result merged with the companies. */
  function JoinTables(shuttles: Table, companies: Table, reviews: Table): (r: Result<Table>)
    requires JoinableInputs(shuttles, companies, reviews)
    ensures r.Success? <==> HasJoinKeys(shuttles, companies, reviews)
    ensures r.Failure? ==> r.error.MissingColumn?
    ensures r.Success? ==> WellFormed(r.value) && r.value.columns == ModelInputColumns(shuttles, companies, reviews)
  {
    var rated :- MergeTables(shuttles, reviews, "id", "shuttle_id");
    var dropped := DropColumn(rated, "id").value;
    assert dropped.columns == Without(shuttles.columns, "id") + reviews.columns by {
      WithoutAppend(shuttles.columns, reviews.columns, "id");
      WithoutNothing(reviews.columns, "id");
    }
    MergeTables(dropped, companies, "company_id", "id")
  }

  /** `create_model_input_table`: the raw join without its incomplete rows. */
  function CreateModelInputTable(shuttles: Table, companies: Table, reviews: Table): (r: Result<Table>)
    requires JoinableInputs(shuttles, companies, reviews)
    ensures r.Success? <==> HasJoinKeys(shuttles, companies, reviews)
    ensures r.Failure? ==> r.error.MissingColumn?
    ensures r.Success? ==> WellFormed(r.value) && r.value.columns == ModelInputColumns(shuttles, companies, reviews)
    ensures r.Success? ==> forall m :: 0 <= m < |r.value.rows| ==> NoMissing(r.value.rows[m])
    ensures r.Success? ==> |r.value.rows| <= |JoinTables(shuttles, companies, reviews).value.rows|
    ensures r.Success? ==> forall x :: x in r.value.rows <==>
              x in JoinTables(shuttles, companies, reviews).value.rows && NoMissing(x)
    ensures r.Success? ==> r.value.rows == DropNA(JoinTables(shuttles, companies, reviews).value.rows)
    ensures r.Success? ==> forall x ::
              multiset(r.value.rows)[x] == (if NoMissing(x) then multiset(JoinTables(shuttles, companies, reviews).value.rows)[x] else 0)
  {
    var joined :- JoinTables(shuttles, companies, reviews);
    var rows := DropNA(joined.rows);
    assert forall m :: 0 <= m < |rows| ==> rows[m] in rows;
    assert forall m :: 0 <= m < |rows| ==> rows[m] in joined.rows;
    Success(Table(joined.columns, rows))
  }

  /** Row `x` of the raw join is shuttle `i` with review `j` and company `k`: the
      review's `shuttle_id` equals the shuttle's `id`, and the company's `id` equals the
      `company_id` of the shuttle with its review. */
  predicate JoinedFrom(shuttles: seq<Row>, companies: seq<Row>, reviews: seq<Row>, i: int, j: int, k: int, x: Row) {
    0 <= i < |shuttles| && 0 <= j < |reviews| && 0 <= k < |companies| &&
    "id" in shuttles[i] && "shuttle_id" in reviews[j] && "id" in companies[k] &&
    "company_id" in Rated(shuttles[i], reviews[j]) &&
    SameValue(shuttles[i]["id"], reviews[j]["shuttle_id"]) &&
    SameValue(Rated(shuttles[i], reviews[j])["company_id"], companies[k]["id"]) &&
    x == Rated(shuttles[i], reviews[j]) + companies[k]
  }

  /** Merging a shuttle with a review and dropping `id` is the shuttle without `id` with the review. */
  lemma DropIdAfterMerge(shuttle: Row, review: Row)
    requires "id" !in review
    ensures (shuttle + review) - {"id"} == Rated(shuttle, review)
  {
  }

  /** What the two joins see of the rows: `rated` is the shuttles merged with their
      reviews, each joined row without `id`. */
  predicate RatedRows(shuttles: seq<Row>, reviews: seq<Row>, rated: seq<Row>)
    requires HasKey(shuttles, "id") && HasKey(reviews, "shuttle_id")
  {
    (forall j :: 0 <= j < |reviews| ==> "id" !in reviews[j]) &&
    |rated| == |Merge(shuttles, reviews, "id", "shuttle_id")| &&
    forall m :: 0 <= m < |rated| ==> rated[m] == Merge(shuttles, reviews, "id", "shuttle_id")[m] - {"id"}
  }

  /** Every row of the second join is a shuttle with a matching review and a matching company. */
  lemma {:induction false} JoinRowsSound(shuttles: seq<Row>, companies: seq<Row>, reviews: seq<Row>, rated: seq<Row>, x: Row)
    requires HasKey(shuttles, "id") && HasKey(reviews, "shuttle_id") && HasKey(companies, "id")
    requires HasKey(rated, "company_id") && RatedRows(shuttles, reviews, rated)
    requires x in Merge(rated, companies, "company_id", "id")
    ensures exists i, j, k :: JoinedFrom(shuttles, companies, reviews, i, j, k, x)
  {
    var merged := Merge(shuttles, reviews, "id", "shuttle_id");
    MergeMembership(rated, companies, "company_id", "id");
    var m, k :| 0 <= m < |rated| && 0 <= k < |companies| &&
                SameValue(rated[m]["company_id"], companies[k]["id"]) && x == rated[m] + companies[k];
    MergeMembership(shuttles, reviews, "id", "shuttle_id");
    assert merged[m] in merged;
    var i, j :| 0 <= i < |shuttles| && 0 <= j < |reviews| &&
                SameValue(shuttles[i]["id"], reviews[j]["shuttle_id"]) && merged[m] == shuttles[i] + reviews[j];
    DropIdAfterMerge(shuttles[i], reviews[j]);
    assert JoinedFrom(shuttles, companies, reviews, i, j, k, x);
  }

  /** Every shuttle with a matching review and a matching company is a row of the second join. */
  lemma {:induction false} JoinRowsComplete(shuttles: seq<Row>, companies: seq<Row>, reviews: seq<Row>, rated: seq<Row>,
                                            i: int, j: int, k: int, x: Row)
    requires HasKey(shuttles, "id") && HasKey(reviews, "shuttle_id") && HasKey(companies, "id")
    requires HasKey(rated, "company_id") && RatedRows(shuttles, reviews, rated)
    requires JoinedFrom(shuttles, companies, reviews, i, j, k, x)
    ensures x in Merge(rated, companies, "company_id", "id")
  {
    var merged := Merge(shuttles, reviews, "id", "shuttle_id");
    MergeMembership(shuttles, reviews, "id", "shuttle_id");
    assert shuttles[i] + reviews[j] in merged;
    var m :| 0 <= m < |merged| && merged[m] == shuttles[i] + reviews[j];
    DropIdAfterMerge(shuttles[i], reviews[j]);
    assert rated[m] == Rated(shuttles[i], reviews[j]);
    MergeMembership(rated, companies, "company_id", "id");
  }

  /** The raw join's first step on rows. */
  lemma RatedOfJoinTables(shuttles: Table, companies: Table, reviews: Table)
    requires JoinableInputs(shuttles, companies, reviews) && HasJoinKeys(shuttles, companies, reviews)
    ensures var rated := DropColumn(MergeTables(shuttles, reviews, "id", "shuttle_id").value, "id").value;
            HasKey(shuttles.rows, "id") && HasKey(reviews.rows, "shuttle_id") && HasKey(companies.rows, "id") &&
            HasKey(rated.rows, "company_id") && RatedRows(shuttles.rows, reviews.rows, rated.rows) &&
            JoinTables(shuttles, companies, reviews).value.rows == Merge(rated.rows, companies.rows, "company_id", "id")
  {
    var rated := DropColumn(MergeTables(shuttles, reviews, "id", "shuttle_id").value, "id").value;
    WithoutAppend(shuttles.columns, reviews.columns, "id");
    WithoutNothing(reviews.columns, "id");
    assert "company_id" in rated.columns;
    assert forall j :: 0 <= j < |reviews.rows| ==> "id" !in reviews.rows[j] by {
      assert "id" in shuttles.columns;
    }
  }

  /** The raw join holds exactly the shuttle-review-company combinations whose keys match. */
  lemma JoinTablesRows(shuttles: Table, companies: Table, reviews: Table)
    requires JoinableInputs(shuttles, companies, reviews) && HasJoinKeys(shuttles, companies, reviews)
    ensures forall x :: x in JoinTables(shuttles, companies, reviews).value.rows <==>
              exists i, j, k :: JoinedFrom(shuttles.rows, companies.rows, reviews.rows, i, j, k, x)
  {
    var rated := DropColumn(MergeTables(shuttles, reviews, "id", "shuttle_id").value, "id").value;
    RatedOfJoinTables(shuttles, companies, reviews);
    forall x | x in JoinTables(shuttles, companies, reviews).value.rows
      ensures exists i, j, k :: JoinedFrom(shuttles.rows, companies.rows, reviews.rows, i, j, k, x)
    {
      JoinRowsSound(shuttles.rows, companies.rows, reviews.rows, rated.rows, x);
    }
    forall x, i, j, k | JoinedFrom(shuttles.rows, companies.rows, reviews.rows, i, j, k, x)
      ensures x in JoinTables(shuttles, companies, reviews).value.rows
    {
      JoinRowsComplete(shuttles.rows, companies.rows, reviews.rows, rated.rows, i, j, k, x);
    }
  }

  /** The model input holds exactly the complete shuttle-review-company combinations whose
      keys match, so a shuttle without a matching review or company contributes no row. */
  lemma ModelInputRows(shuttles: Table, companies: Table, reviews: Table)
    requires JoinableInputs(shuttles, companies, reviews) && HasJoinKeys(shuttles, companies, reviews)
    ensures forall x :: x in CreateModelInputTable(shuttles, companies, reviews).value.rows <==>
              NoMissing(x) && exists i, j, k :: JoinedFrom(shuttles.rows, companies.rows, reviews.rows, i, j, k, x)
  {
    JoinTablesRows(shuttles, companies, reviews);
  }

  /** In every row of the model input, the join keys it was built from are present: the
      shuttle's `id`, the review's `shuttle_id` and the company's `id`. */
  lemma ModelInputKeysPresent(shuttles: Table, companies: Table, reviews: Table)
    requires JoinableInputs(shuttles, companies, reviews) && HasJoinKeys(shuttles, companies, reviews)
    ensures forall x, i, j, k :: (x in CreateModelInputTable(shuttles, companies, reviews).value.rows &&
                                 JoinedFrom(shuttles.rows, companies.rows, reviews.rows, i, j, k, x)) ==>
              reviews.rows[j]["shuttle_id"] != Missing && shuttles.rows[i]["id"] != Missing &&
              companies.rows[k]["id"] != Missing
  {
    forall x, i, j, k | x in CreateModelInputTable(shuttles, companies, reviews).value.rows &&
                        JoinedFrom(shuttles.rows, companies.rows, reviews.rows, i, j, k, x)
      ensures reviews.rows[j]["shuttle_id"] != Missing && shuttles.rows[i]["id"] != Missing &&
              companies.rows[k]["id"] != Missing
    {
      assert "shuttle_id" in reviews.columns && "shuttle_id" !in companies.columns;
      CompleteRowKeys(shuttles.rows[i], reviews.rows[j], companies.rows[k], x);
    }
  }

  /** A complete joined row carries the review's `shuttle_id` and the company's `id`, and
      the shuttle's `id` matched a present key. */
  lemma CompleteRowKeys(shuttle: Row, review: Row, company: Row, x: Row)
    requires "id" in shuttle && "shuttle_id" in review && "id" in company && "shuttle_id" !in company
    requires SameValue(shuttle["id"], review["shuttle_id"])
    requires x == Rated(shuttle, review) + company && NoMissing(x)
    ensures review["shuttle_id"] != Missing && shuttle["id"] != Missing && company["id"] != Missing
  {
    assert x["shuttle_id"] == review["shuttle_id"];
    assert x["id"] == company["id"];
  }

  // A worked example: two shuttles of company 10, one review (of shuttle 1).

  const ExampleShuttles := Table(["id", "company_id"],
                                 [map["id" := Int(1), "company_id" := Int(10)],
                                  map["id" := Int(2), "company_id" := Int(10)]])
  const ExampleReviews := Table(["shuttle_id", "rating"], [map["shuttle_id" := Int(1), "rating" := Int(5)]])
  const ExampleCompanies := Table(["id"], [map["id" := Int(10)]])
  const ExampleMerged := map["id" := Int(1), "company_id" := Int(10), "shuttle_id" := Int(1), "rating" := Int(5)]
  const ExampleRated := map["company_id" := Int(10), "shuttle_id" := Int(1), "rating" := Int(5)]
  const ExampleRow := map["company_id" := Int(10), "shuttle_id" := Int(1), "rating" := Int(5), "id" := Int(10)]

  lemma ExampleInputsWellFormed()
    ensures WellFormed(ExampleShuttles) && WellFormed(ExampleReviews) && WellFormed(ExampleCompanies)
  {
    assert ColumnSet(ExampleShuttles.columns) == {"id", "company_id"};
    assert ColumnSet(ExampleReviews.columns) == {"shuttle_id", "rating"};
    assert ColumnSet(ExampleCompanies.columns) == {"id"};
  }

  lemma ExampleJoinable()
    ensures JoinableInputs(ExampleShuttles, ExampleCompanies, ExampleReviews)
    ensures HasJoinKeys(ExampleShuttles, ExampleCompanies, ExampleReviews)
  {
    ExampleInputsWellFormed();
    assert Without(ExampleShuttles.columns, "id") == ["company_id"];
  }

  lemma ExampleFirstRows()
    ensures Merge(ExampleShuttles.rows, ExampleReviews.rows, "id", "shuttle_id") == [ExampleMerged]
  {
    var s := ExampleShuttles.rows;
    var v := ExampleReviews.rows;
    assert v[1..] == [];
    assert s[0] + v[0] == ExampleMerged;
    assert MatchesOf(s[0], v, "id", "shuttle_id") == [s[0] + v[0]];
    assert MatchesOf(s[1], v, "id", "shuttle_id") == [];
    assert s[1..] == [s[1]] && s[1..][1..] == [];
    assert Merge(s[1..], v, "id", "shuttle_id") == [];
  }

  lemma ExampleFirstMerge()
    ensures MergeTables(ExampleShuttles, ExampleReviews, "id", "shuttle_id") ==
            Success(Table(["id", "company_id", "shuttle_id", "rating"], [ExampleMerged]))
  {
    ExampleJoinable();
    ExampleFirstRows();
    assert ExampleShuttles.columns + ExampleReviews.columns == ["id", "company_id", "shuttle_id", "rating"];
  }

  lemma ExampleMergedWithoutId()
    ensures ExampleMerged - {"id"} == ExampleRated
  {
  }

  lemma ExampleDropColumns()
    ensures Without(["id", "company_id", "shuttle_id", "rating"], "id") == ["company_id", "shuttle_id", "rating"]
  {
    assert ["id", "company_id", "shuttle_id", "rating"] == ["id"] + ["company_id", "shuttle_id", "rating"];
    WithoutAppend(["id"], ["company_id", "shuttle_id", "rating"], "id");
    WithoutNothing(["company_id", "shuttle_id", "rating"], "id");
    assert Without(["id"], "id") == Without([], "id");
  }

  lemma ExampleMergedWellFormed()
    ensures WellFormed(Table(["id", "company_id", "shuttle_id", "rating"], [ExampleMerged]))
  {
    assert ColumnSet(["id", "company_id", "shuttle_id", "rating"]) == ExampleMerged.Keys;
  }

  lemma ExampleDrop()
    ensures DropColumn(Table(["id", "company_id", "shuttle_id", "rating"], [ExampleMerged]), "id") ==
            Success(Table(["company_id", "shuttle_id", "rating"], [ExampleRated]))
  {
    ExampleMergedWellFormed();
    ExampleDropColumns();
    ExampleMergedWithoutId();
    var r := DropColumn(Table(["id", "company_id", "shuttle_id", "rating"], [ExampleMerged]), "id").value;
    assert r.rows == [ExampleRated];
  }

  lemma ExampleRatedWellFormed()
    ensures WellFormed(Table(["company_id", "shuttle_id", "rating"], [ExampleRated]))
  {
    assert ColumnSet(["company_id", "shuttle_id", "rating"]) == ExampleRated.Keys;
  }

  lemma ExampleSecondRows()
    ensures Merge([ExampleRated], ExampleCompanies.rows, "company_id", "id") == [ExampleRow]
  {
    assert ExampleRated + ExampleCompanies.rows[0] == ExampleRow;
    assert ExampleCompanies.rows[1..] == [];
    assert MatchesOf(ExampleRated, ExampleCompanies.rows, "company_id", "id") == [ExampleRow];
    assert [ExampleRated][1..] == [];
  }

  lemma ExampleSecondMerge()
    ensures MergeTables(Table(["company_id", "shuttle_id", "rating"], [ExampleRated]), ExampleCompanies, "company_id", "id") ==
            Success(Table(["company_id", "shuttle_id", "rating", "id"], [ExampleRow]))
  {
    ExampleRatedWellFormed();
    ExampleSecondRows();
    assert ["company_id", "shuttle_id", "rating"] + ExampleCompanies.columns == ["company_id", "shuttle_id", "rating", "id"];
  }

  lemma ExampleRowComplete()
    ensures NoMissing(ExampleRow) && DropNA([ExampleRow]) == [ExampleRow]
  {
    assert [ExampleRow][1..] == [];
  }

  lemma ExampleRaw()
    ensures JoinableInputs(ExampleShuttles, ExampleCompanies, ExampleReviews)
    ensures JoinTables(ExampleShuttles, ExampleCompanies, ExampleReviews) ==
            Success(Table(["company_id", "shuttle_id", "rating", "id"], [ExampleRow]))
  {
    ExampleJoinable();
    ExampleFirstMerge();
    ExampleDrop();
    ExampleSecondMerge();
  }

  /** The model input of the example is the one reviewed shuttle with its review and its
      company; the unreviewed shuttle 2 is absent. */
  lemma ModelInputExample()
    ensures JoinableInputs(ExampleShuttles, ExampleCompanies, ExampleReviews)
    ensures CreateModelInputTable(ExampleShuttles, ExampleCompanies, ExampleReviews) ==
            Success(Table(["company_id", "shuttle_id", "rating", "id"], [ExampleRow]))
  {
    ExampleRaw();
    var joined := JoinTables(ExampleShuttles, ExampleCompanies, ExampleReviews).value;
    assert joined.rows == [ExampleRow];
    ExampleRowComplete();
    assert CreateModelInputTable(ExampleShuttles, ExampleCompanies, ExampleReviews) ==
           Success(Table(joined.columns, DropNA(joined.rows)));
  }

  lemma {:induction false} WithoutAppend(a: seq<string>, b: seq<string>, name: string)
    ensures Without(a + b, name) == Without(a, name) + Without(b, name)
  {
    if a == [] {
      assert a + b == b;
    } else {
      assert (a + b)[1..] == a[1..] + b;
      WithoutAppend(a[1..], b, name);
    }
  }

  /** One name is dropped exactly when it is the given name. */
  lemma WithoutSingle(c: string, name: string)
    ensures Without([c], name) == if c == name then [] else [c]
  {
    assert [c][1..] == [];
  }

  lemma {:induction false} WithoutNothing(a: seq<string>, name: string)
    requires name !in a
    ensures Without(a, name) == a
  {
    if a != [] {
      WithoutNothing(a[1..], name);
    }
  }
}
