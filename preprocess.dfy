/** The companies and shuttles preprocessors: each overwrites some columns of the
    caller's frame in place with the field parsers' results. */
module Preprocess {
  import opened Tables
  import opened Parsers

  /** The record returned beside the companies frame: its column names and a type tag. */
  datatype Metadata = Metadata(columns: seq<string>, dataType: string)

  /** `t[name] = _is_true(t[name])`. */
  function FlagColumn(t: Table, name: string): (r: Table)
    requires WellFormed(t) && name in t.columns
    ensures WellFormed(r) && r.columns == t.columns && |r.rows| == |t.rows|
    ensures forall k :: 0 <= k < |r.rows| ==>
              name in r.rows[k] && r.rows[k][name] == Bool(t.rows[k][name] == Str("t"))
    ensures forall k, c :: 0 <= k < |r.rows| && c in t.rows[k] && c != name ==>
              c in r.rows[k] && r.rows[k][c] == t.rows[k][c]
  {
    WithColumn(t, name, IsTrue(ColumnOf(t, name)))
  }

  /** `preprocess_companies`: `iata_approved` becomes a boolean flag and `company_rating`
      a fraction; returns the same frame and its metadata. A missing column or an
      unreadable rating raises, after the columns before it were overwritten. */
  method PreprocessCompanies(companies: DataFrame) returns (r: Result<(DataFrame, Metadata)>)
    requires companies.Valid()
    modifies companies
    ensures companies.Valid()
    ensures companies.columns == old(companies.columns) && |companies.rows| == |old(companies.rows)|
    ensures forall k, c :: (0 <= k < |companies.rows| && c in old(companies.rows)[k] &&
                            c != "iata_approved" && c != "company_rating") ==>
              c in companies.rows[k] && companies.rows[k][c] == old(companies.rows)[k][c]
    ensures "iata_approved" !in old(companies.columns) ==>
              r == Failure(MissingColumn("iata_approved")) && companies.Value() == old(companies.Value())
    ensures "iata_approved" in old(companies.columns) && "company_rating" !in old(companies.columns) ==>
              r == Failure(MissingColumn("company_rating")) &&
              companies.Value() == FlagColumn(old(companies.Value()), "iata_approved")
    ensures "iata_approved" in old(companies.columns) && "company_rating" in old(companies.columns) ==>
              var parsed := ParsePercentage(ColumnOf(old(companies.Value()), "company_rating"));
              var flagged := FlagColumn(old(companies.Value()), "iata_approved");
              (parsed.Failure? ==> r == Failure(parsed.error) && companies.Value() == flagged) &&
              (parsed.Success? ==>
                 r == Success((companies, Metadata(old(companies.columns), "companies"))) &&
                 companies.Value() == WithColumn(flagged, "company_rating", parsed.value))
  {
    ghost var t := companies.Value();
    var iata :- companies.Get("iata_approved");
    assert iata == ColumnOf(t, "iata_approved");
    companies.Set("iata_approved", IsTrue(iata));
    assert companies.Value() == FlagColumn(t, "iata_approved");
    var rating :- companies.Get("company_rating");
    assert rating == ColumnOf(t, "company_rating");
    var parsed :- ParsePercentage(rating);
    companies.Set("company_rating", parsed);
    return Success((companies, Metadata(companies.columns, "companies")));
  }

  /** `preprocess_shuttles`: `d_check_complete` and `moon_clearance_complete` become
      boolean flags and `price` a number; returns the same frame (and no metadata). A
      missing column or an unreadable price raises, after the columns before it were
      overwritten. */
  method PreprocessShuttles(shuttles: DataFrame) returns (r: Result<DataFrame>)
    requires shuttles.Valid()
    modifies shuttles
    ensures shuttles.Valid()
    ensures shuttles.columns == old(shuttles.columns) && |shuttles.rows| == |old(shuttles.rows)|
    ensures forall k, c :: (0 <= k < |shuttles.rows| && c in old(shuttles.rows)[k] &&
                            c != "d_check_complete" && c != "moon_clearance_complete" && c != "price") ==>
              c in shuttles.rows[k] && shuttles.rows[k][c] == old(shuttles.rows)[k][c]
    ensures "d_check_complete" !in old(shuttles.columns) ==>
              r == Failure(MissingColumn("d_check_complete")) && shuttles.Value() == old(shuttles.Value())
    ensures "d_check_complete" in old(shuttles.columns) && "moon_clearance_complete" !in old(shuttles.columns) ==>
              r == Failure(MissingColumn("moon_clearance_complete")) &&
              shuttles.Value() == FlagColumn(old(shuttles.Value()), "d_check_complete")
    ensures "d_check_complete" in old(shuttles.columns) && "moon_clearance_complete" in old(shuttles.columns) ==>
              var flagged := FlagColumn(FlagColumn(old(shuttles.Value()), "d_check_complete"), "moon_clearance_complete");
              ("price" !in old(shuttles.columns) ==>
                 r == Failure(MissingColumn("price")) && shuttles.Value() == flagged) &&
              ("price" in old(shuttles.columns) ==>
                 var parsed := ParseMoney(ColumnOf(old(shuttles.Value()), "price"));
                 (parsed.Failure? ==> r == Failure(parsed.error) && shuttles.Value() == flagged) &&
                 (parsed.Success? ==> r == Success(shuttles) && shuttles.Value() == WithColumn(flagged, "price", parsed.value)))
  {
    ghost var t := shuttles.Value();
    var checked :- shuttles.Get("d_check_complete");
    assert checked == ColumnOf(t, "d_check_complete");
    shuttles.Set("d_check_complete", IsTrue(checked));
    ghost var t1 := shuttles.Value();
    assert t1 == FlagColumn(t, "d_check_complete");
    var cleared :- shuttles.Get("moon_clearance_complete");
    assert cleared == ColumnOf(t1, "moon_clearance_complete");
    shuttles.Set("moon_clearance_complete", IsTrue(cleared));
    assert shuttles.Value() == FlagColumn(t1, "moon_clearance_complete");
    var price :- shuttles.Get("price");
    assert price == ColumnOf(t, "price");
    var parsed :- ParseMoney(price);
    shuttles.Set("price", parsed);
    return Success(shuttles);
  }
}
