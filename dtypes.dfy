/** The dtype normaliser: the integer-coded columns SEX, EDUCATION and MARRIAGE are
    relabelled through a fixed replacement dictionary and then restricted to a closed
    list of categories. */
module Dtypes {
  import opened Tables

  /** A replacement dictionary: integer code to label, in the dictionary's insertion order. */
  type Mapping = seq<(int, string)>

  const SexMapping: Mapping := [(1, "Male"), (2, "Female")]
  const SexCategories: seq<string> := ["Male", "Female"]

  const EducationMapping: Mapping :=
    [(1, "GraduateSchool"), (2, "University"), (3, "HighSchool"), (4, "Others"),
     (5, "Unknown-5"), (6, "Unknown-6"), (0, "MISSING")]

  const MarriageMapping: Mapping := [(1, "Married"), (2, "Single"), (3, "Divorced"), (0, "MISSING")]

  /** The dictionary's values, in order; the category list of EDUCATION and MARRIAGE. */
  function Labels(m: Mapping): (labels: seq<string>)
    ensures |labels| == |m|
    ensures forall j :: 0 <= j < |m| ==> labels[j] == m[j].1
  {
    seq(|m|, j requires 0 <= j < |m| => m[j].1)
  }

  /** A dictionary has no key twice. */
  predicate KeysDistinct(m: Mapping) {
    forall i, j :: 0 <= i < j < |m| ==> m[i].0 != m[j].0
  }

  /** Every label of the dictionary is one of the categories. */
  predicate LabelsIn(m: Mapping, categories: seq<string>) {
    forall j :: 0 <= j < |m| ==> m[j].1 in categories
  }

  /** A cell of a categorical column with the given categories: a listed label or missing. */
  predicate InCategories(c: Cell, categories: seq<string>) {
    c == Missing || (c.Str? && c.s in categories)
  }

  /** The label that replaces a cell: that of the first key the cell equals, if any. */
  function Lookup(m: Mapping, c: Cell): (r: Option<string>)
    ensures r.Some? <==> exists j :: 0 <= j < |m| && SameValue(c, Int(m[j].0))
    ensures r.Some? ==> exists j :: 0 <= j < |m| && SameValue(c, Int(m[j].0)) && r.value == m[j].1
  {
    if m == [] then None
    else if SameValue(c, Int(m[0].0)) then Some(m[0].1)
    else Lookup(m[1..], c)
  }

  /** `Series.replace(mapping)` on one cell: a key is replaced by its label, anything else is left alone. */
  function ReplaceCell(c: Cell, m: Mapping): (r: Cell)
    ensures (exists j :: 0 <= j < |m| && SameValue(c, Int(m[j].0))) ==>
              exists j :: 0 <= j < |m| && SameValue(c, Int(m[j].0)) && r == Str(m[j].1)
    ensures (forall j :: 0 <= j < |m| ==> !SameValue(c, Int(m[j].0))) ==> r == c
  {
    match Lookup(m, c)
    case Some(name) => Str(name)
    case None => c
  }

  /** `Categorical(..., categories)` on one cell: a value outside the categories becomes missing. */
  function CategoricalCell(c: Cell, categories: seq<string>): (r: Cell)
    ensures InCategories(r, categories)
  {
    if c.Str? && c.s in categories then c else Missing
  }

  /** `Categorical(Series.replace(m), categories)` on one cell. */
  function RelabelCell(c: Cell, m: Mapping, categories: seq<string>): (r: Cell)
    ensures InCategories(r, categories)
    ensures r != Missing ==> r == c || exists j :: 0 <= j < |m| && SameValue(c, Int(m[j].0)) && r == Str(m[j].1)
  {
    CategoricalCell(ReplaceCell(c, m), categories)
  }

  /** What relabelling does to one cell: a listed code becomes its label, a category
      label stays as it is, and everything else becomes missing. */
  lemma RelabelCellMeaning(c: Cell, m: Mapping, categories: seq<string>)
    requires KeysDistinct(m) && LabelsIn(m, categories)
    ensures forall j :: 0 <= j < |m| && SameValue(c, Int(m[j].0)) ==>
              RelabelCell(c, m, categories) == Str(m[j].1)
    ensures c.Str? && c.s in categories ==> RelabelCell(c, m, categories) == c
    ensures (forall j :: 0 <= j < |m| ==> !SameValue(c, Int(m[j].0))) && !(c.Str? && c.s in categories) ==>
              RelabelCell(c, m, categories) == Missing
  {
    var r := Lookup(m, c);
    if r.Some? {
      var i :| 0 <= i < |m| && SameValue(c, Int(m[i].0)) && r.value == m[i].1;
      forall j | 0 <= j < |m| && SameValue(c, Int(m[j].0))
        ensures m[j].0 == m[i].0
      {
        assert NumberOf(c) == Some(m[j].0 as real) && NumberOf(c) == Some(m[i].0 as real);
      }
    }
  }

  /** Relabelling is idempotent: a label is never a key, and it is already a category. */
  lemma RelabelCellIdempotent(c: Cell, m: Mapping, categories: seq<string>)
    ensures RelabelCell(RelabelCell(c, m, categories), m, categories) == RelabelCell(c, m, categories)
  {
    var r := RelabelCell(c, m, categories);
    assert NumberOf(r) == None;
  }

  /** The relabelled series, row by row. */
  function Relabel(cells: seq<Cell>, m: Mapping, categories: seq<string>): (r: seq<Cell>)
    ensures |r| == |cells|
    ensures forall k :: 0 <= k < |r| ==> r[k] == RelabelCell(cells[k], m, categories)
    ensures forall k :: 0 <= k < |r| ==> InCategories(r[k], categories)
  {
    seq(|cells|, k requires 0 <= k < |cells| => RelabelCell(cells[k], m, categories))
  }

  /** `t[name] = Categorical(t[name].replace(m), categories)` on a table value. */
  function RelabelColumn(t: Table, name: string, m: Mapping, categories: seq<string>): (r: Table)
    requires WellFormed(t) && name in t.columns
    ensures WellFormed(r) && r.columns == t.columns && |r.rows| == |t.rows|
    ensures forall k :: 0 <= k < |r.rows| ==>
              name in r.rows[k] && r.rows[k][name] == RelabelCell(t.rows[k][name], m, categories)
    ensures forall k, c :: 0 <= k < |r.rows| && c in t.rows[k] && c != name ==>
              c in r.rows[k] && r.rows[k][c] == t.rows[k][c]
  {
    WithColumn(t, name, Relabel(ColumnOf(t, name), m, categories))
  }

  /** A column every cell of which is already a category or missing is left as it is. */
  lemma {:induction false} RelabelColumnFixed(t: Table, name: string, m: Mapping, categories: seq<string>)
    requires WellFormed(t) && name in t.columns
    requires forall k :: 0 <= k < |t.rows| ==> InCategories(t.rows[k][name], categories)
    ensures RelabelColumn(t, name, m, categories) == t
  {
    var r := RelabelColumn(t, name, m, categories);
    forall k | 0 <= k < |t.rows|
      ensures r.rows[k] == t.rows[k]
    {
      RelabelCellIdempotent(t.rows[k][name], m, categories);
      assert InCategories(t.rows[k][name], categories);
      assert r.rows[k].Keys == t.rows[k].Keys;
    }
    assert r.rows == t.rows;
  }

  predicate IsDtypeColumn(name: string) {
    name == "SEX" || name == "EDUCATION" || name == "MARRIAGE"
  }

  predicate HasDtypeColumns(t: Table) {
    "SEX" in t.columns && "EDUCATION" in t.columns && "MARRIAGE" in t.columns
  }

  /** The table `preprocess_dtypes` leaves behind when all three columns are present. */
  function Dtypes(t: Table): (r: Table)
    requires WellFormed(t) && HasDtypeColumns(t)
    ensures WellFormed(r) && r.columns == t.columns && |r.rows| == |t.rows|
    ensures forall k, c :: 0 <= k < |r.rows| && c in t.rows[k] && !IsDtypeColumn(c) ==>
              c in r.rows[k] && r.rows[k][c] == t.rows[k][c]
    ensures forall k :: 0 <= k < |r.rows| ==>
              "SEX" in r.rows[k] && "EDUCATION" in r.rows[k] && "MARRIAGE" in r.rows[k]
    ensures forall k :: 0 <= k < |r.rows| ==>
              r.rows[k]["SEX"] == RelabelCell(t.rows[k]["SEX"], SexMapping, SexCategories) &&
              r.rows[k]["EDUCATION"] == RelabelCell(t.rows[k]["EDUCATION"], EducationMapping, Labels(EducationMapping)) &&
              r.rows[k]["MARRIAGE"] == RelabelCell(t.rows[k]["MARRIAGE"], MarriageMapping, Labels(MarriageMapping))
  {
    var t1 := RelabelColumn(t, "SEX", SexMapping, SexCategories);
    var t2 := RelabelColumn(t1, "EDUCATION", EducationMapping, Labels(EducationMapping));
    RelabelColumn(t2, "MARRIAGE", MarriageMapping, Labels(MarriageMapping))
  }

  /** The SEX code table: no code twice, its labels are exactly the categories, and no two
      labels are equal. */
  lemma SexTableWellFormed()
    ensures KeysDistinct(SexMapping) && LabelsIn(SexMapping, SexCategories) && SexCategories == Labels(SexMapping)
    ensures Distinct(Labels(SexMapping))
  {
  }

  /** The EDUCATION code table: no code twice, and no two labels equal (Unknown-5 and
      Unknown-6 stay apart). */
  lemma EducationTableWellFormed()
    ensures KeysDistinct(EducationMapping) && LabelsIn(EducationMapping, Labels(EducationMapping))
    ensures Distinct(Labels(EducationMapping))
  {
  }

  /** The MARRIAGE code table: no code twice, and no two labels equal. */
  lemma MarriageTableWellFormed()
    ensures KeysDistinct(MarriageMapping) && LabelsIn(MarriageMapping, Labels(MarriageMapping))
    ensures Distinct(Labels(MarriageMapping))
  {
  }

  /** Every code listed in a dictionary is relabelled to its own label. */
  lemma EveryCodeRelabelled(m: Mapping, categories: seq<string>)
    requires KeysDistinct(m) && LabelsIn(m, categories)
    ensures forall j :: 0 <= j < |m| ==> RelabelCell(Int(m[j].0), m, categories) == Str(m[j].1)
  {
    forall j | 0 <= j < |m|
      ensures RelabelCell(Int(m[j].0), m, categories) == Str(m[j].1)
    {
      RelabelCellMeaning(Int(m[j].0), m, categories);
    }
  }

  /** The documented SEX codes and the labels they become; any other code becomes missing. */
  lemma SexCodes(c: Cell)
    ensures RelabelCell(Int(1), SexMapping, SexCategories) == Str("Male")
    ensures RelabelCell(Int(2), SexMapping, SexCategories) == Str("Female")
    ensures !SameValue(c, Int(1)) && !SameValue(c, Int(2)) && !(c.Str? && c.s in SexCategories) ==>
              RelabelCell(c, SexMapping, SexCategories) == Missing
  {
    SexTableWellFormed();
    EveryCodeRelabelled(SexMapping, SexCategories);
    assert SexMapping[0].0 == 1 && SexMapping[1].0 == 2;
    RelabelCellMeaning(c, SexMapping, SexCategories);
  }

  /** The documented EDUCATION codes and the labels they become. */
  lemma EducationCodes()
    ensures var cats := Labels(EducationMapping);
      RelabelCell(Int(1), EducationMapping, cats) == Str("GraduateSchool") &&
      RelabelCell(Int(2), EducationMapping, cats) == Str("University") &&
      RelabelCell(Int(3), EducationMapping, cats) == Str("HighSchool") &&
      RelabelCell(Int(4), EducationMapping, cats) == Str("Others") &&
      RelabelCell(Int(5), EducationMapping, cats) == Str("Unknown-5") &&
      RelabelCell(Int(6), EducationMapping, cats) == Str("Unknown-6") &&
      RelabelCell(Int(0), EducationMapping, cats) == Str("MISSING")
  {
    EducationTableWellFormed();
    EveryCodeRelabelled(EducationMapping, Labels(EducationMapping));
    var m := EducationMapping;
    assert m[0].0 == 1 && m[1].0 == 2 && m[2].0 == 3 && m[3].0 == 4 && m[4].0 == 5 && m[5].0 == 6 && m[6].0 == 0;
  }

  /** The documented MARRIAGE codes and the labels they become. */
  lemma MarriageCodes()
    ensures var cats := Labels(MarriageMapping);
      RelabelCell(Int(1), MarriageMapping, cats) == Str("Married") &&
      RelabelCell(Int(2), MarriageMapping, cats) == Str("Single") &&
      RelabelCell(Int(3), MarriageMapping, cats) == Str("Divorced") &&
      RelabelCell(Int(0), MarriageMapping, cats) == Str("MISSING")
  {
    MarriageTableWellFormed();
    EveryCodeRelabelled(MarriageMapping, Labels(MarriageMapping));
    var m := MarriageMapping;
    assert m[0].0 == 1 && m[1].0 == 2 && m[2].0 == 3 && m[3].0 == 0;
  }

  /** After normalising, each of the three columns holds only its own labels or missing cells. */
  lemma DtypesClosed(t: Table)
    requires WellFormed(t) && HasDtypeColumns(t)
    ensures forall k :: 0 <= k < |t.rows| ==>
              InCategories(Dtypes(t).rows[k]["SEX"], SexCategories) &&
              InCategories(Dtypes(t).rows[k]["EDUCATION"], Labels(EducationMapping)) &&
              InCategories(Dtypes(t).rows[k]["MARRIAGE"], Labels(MarriageMapping))
  {
  }

  /** Normalising a normalised table changes nothing. */
  lemma DtypesIdempotent(t: Table)
    requires WellFormed(t) && HasDtypeColumns(t)
    ensures HasDtypeColumns(Dtypes(t)) && Dtypes(Dtypes(t)) == Dtypes(t)
  {
    var d := Dtypes(t);
    DtypesClosed(t);
    RelabelColumnFixed(d, "SEX", SexMapping, SexCategories);
    RelabelColumnFixed(d, "EDUCATION", EducationMapping, Labels(EducationMapping));
    RelabelColumnFixed(d, "MARRIAGE", MarriageMapping, Labels(MarriageMapping));
  }

  /** `preprocess_dtypes`: overwrites the three columns of `data` in place and returns
      `data`. A missing column raises after the columns before it were overwritten. */
  method PreprocessDtypes(data: DataFrame) returns (r: Result<DataFrame>)
    requires data.Valid()
    modifies data
    ensures data.Valid()
    ensures r.Success? <==> HasDtypeColumns(old(data.Value()))
    ensures r.Success? ==> r.value == data && data.Value() == Dtypes(old(data.Value()))
    ensures "SEX" !in old(data.columns) ==>
              r == Failure(MissingColumn("SEX")) && data.Value() == old(data.Value())
    ensures "SEX" in old(data.columns) && "EDUCATION" !in old(data.columns) ==>
              r == Failure(MissingColumn("EDUCATION")) &&
              data.Value() == RelabelColumn(old(data.Value()), "SEX", SexMapping, SexCategories)
    ensures "SEX" in old(data.columns) && "EDUCATION" in old(data.columns) && "MARRIAGE" !in old(data.columns) ==>
              r == Failure(MissingColumn("MARRIAGE")) &&
              data.Value() == RelabelColumn(RelabelColumn(old(data.Value()), "SEX", SexMapping, SexCategories),
                                            "EDUCATION", EducationMapping, Labels(EducationMapping))
  {
    var sex :- data.Get("SEX");
    data.Set("SEX", Relabel(sex, SexMapping, SexCategories));
    var education :- data.Get("EDUCATION");
    data.Set("EDUCATION", Relabel(education, EducationMapping, Labels(EducationMapping)));
    var marriage :- data.Get("MARRIAGE");
    data.Set("MARRIAGE", Relabel(marriage, MarriageMapping, Labels(MarriageMapping)));
    return Success(data);
  }
}
