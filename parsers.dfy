/** The field parsers: the boolean flag `"t"`, and percentage and money texts whose
    formatting characters are stripped before the text is cast to a number. */
module Parsers {
  import opened Tables

  /** `_is_true`: the series `x == "t"`, cell by cell. */
  function IsTrue(x: seq<Cell>): (r: seq<Cell>)
    ensures |r| == |x|
    ensures forall k :: 0 <= k < |x| ==> r[k].Bool? && (r[k].b <==> x[k] == Str("t"))
  {
    seq(|x|, k requires 0 <= k < |x| => Bool(x[k] == Str("t")))
  }

  /** Only the text "t" is true: "f", "", "T", a missing cell and any non-text cell are false. */
  lemma IsTrueOnlyForT(x: seq<Cell>)
    ensures forall k :: 0 <= k < |x| && x[k].Str? && x[k].s != "t" ==> IsTrue(x)[k] == Bool(false)
    ensures forall k :: 0 <= k < |x| && !x[k].Str? ==> IsTrue(x)[k] == Bool(false)
    ensures IsTrue([Str("t"), Str("f"), Str(""), Str("T"), Missing]) ==
            [Bool(true), Bool(false), Bool(false), Bool(false), Bool(false)]
  {
    var r := IsTrue([Str("t"), Str("f"), Str(""), Str("T"), Missing]);
    assert r[1] == Bool(false) && r[2] == Bool(false) && r[3] == Bool(false);
  }

  // ---------------------------------------------------------------------------
  // Removing formatting characters: `str.replace(ch, "")` with a literal pattern.

  /** How many characters of `s` are among `drop`. */
  function Occurrences(s: string, drop: set<char>): nat {
    if s == [] then 0 else (if s[0] in drop then 1 else 0) + Occurrences(s[1..], drop)
  }

  /** `a` is `b` with some characters deleted, the others kept in order. */
  predicate IsSubsequence(a: string, b: string) {
    if a == [] then true
    else if b == [] then false
    else (a[0] == b[0] && IsSubsequence(a[1..], b[1..])) || IsSubsequence(a, b[1..])
  }

  /** `s` with every character in `drop` removed. */
  function StripChars(s: string, drop: set<char>): (r: string)
    ensures forall i :: 0 <= i < |r| ==> r[i] !in drop
  {
    if s == [] then []
    else if s[0] in drop then StripChars(s[1..], drop)
    else [s[0]] + StripChars(s[1..], drop)
  }

  /** Stripping removes the characters in `drop` and nothing else: every other character
      keeps its number of occurrences and its order, and the text shrinks by exactly the
      number of characters removed. */
  lemma {:induction false} StripCharsRemovesOnly(s: string, drop: set<char>)
    ensures forall ch :: ch !in drop ==> multiset(StripChars(s, drop))[ch] == multiset(s)[ch]
    ensures |StripChars(s, drop)| == |s| - Occurrences(s, drop)
    ensures IsSubsequence(StripChars(s, drop), s)
  {
    if s != [] {
      assert s == [s[0]] + s[1..];
      StripCharsRemovesOnly(s[1..], drop);
      var rest := StripChars(s[1..], drop);
      if s[0] !in drop {
        var r := [s[0]] + rest;
        assert r[0] == s[0] && r[1..] == rest;
      }
    }
  }

  /** A text without any of the characters is left unchanged. */
  lemma {:induction false} StripCharsNothingToDo(s: string, drop: set<char>)
    requires forall i :: 0 <= i < |s| ==> s[i] !in drop
    ensures StripChars(s, drop) == s
  {
    if s != [] {
      StripCharsNothingToDo(s[1..], drop);
    }
  }

  /** Stripping twice is stripping once. */
  lemma StripCharsIdempotent(s: string, drop: set<char>)
    ensures StripChars(StripChars(s, drop), drop) == StripChars(s, drop)
  {
    StripCharsNothingToDo(StripChars(s, drop), drop);
  }

  /** Stripping one set of characters and then another is stripping both at once. */
  lemma {:induction false} StripCharsCompose(s: string, a: set<char>, b: set<char>)
    ensures StripChars(StripChars(s, a), b) == StripChars(s, a + b)
  {
    if s != [] {
      StripCharsCompose(s[1..], a, b);
      if s[0] !in a {
        var rest := StripChars(s[1..], a);
        assert StripChars(s, a) == [s[0]] + rest;
        assert ([s[0]] + rest)[1..] == rest;
      }
    }
  }

  /** Stripping works piece by piece. */
  lemma {:induction false} StripCharsAppend(s: string, t: string, drop: set<char>)
    ensures StripChars(s + t, drop) == StripChars(s, drop) + StripChars(t, drop)
  {
    if s == [] {
      assert s + t == t;
    } else {
      assert (s + t)[1..] == s[1..] + t;
      StripCharsAppend(s[1..], t, drop);
    }
  }

  // ---------------------------------------------------------------------------
  // Casting a text to a number: a decimal numeral with an optional sign and point.

  datatype Sign = NoSign | Plus | Minus

  /** A decimal numeral: sign, digits before the point, whether there is a point, digits after it. */
  datatype Decimal = Decimal(sign: Sign, whole: string, dot: bool, frac: string)

  predicate IsDigit(ch: char) {
    '0' <= ch <= '9'
  }

  predicate AllDigits(s: string) {
    forall i :: 0 <= i < |s| ==> IsDigit(s[i])
  }

  /** At least one digit, and digits after the point only when there is a point. */
  predicate ValidDecimal(d: Decimal) {
    AllDigits(d.whole) && AllDigits(d.frac) && |d.whole| + |d.frac| > 0 && (!d.dot ==> d.frac == [])
  }

  function SignText(sign: Sign): string {
    match sign
    case NoSign => ""
    case Plus => "+"
    case Minus => "-"
  }

  function DotText(dot: bool): string {
    if dot then "." else ""
  }

  /** The text of a numeral. */
  function Format(d: Decimal): string {
    SignText(d.sign) + (d.whole + DotText(d.dot) + d.frac)
  }

  /** The index of the first point in `s`, or `|s|` when there is none. */
  function DotIndex(s: string): (i: nat)
    ensures i <= |s|
    ensures forall j :: 0 <= j < i ==> s[j] != '.'
    ensures i < |s| ==> s[i] == '.'
  {
    if s == [] || s[0] == '.' then 0 else 1 + DotIndex(s[1..])
  }

  /** A leading sign, and the text after it. */
  function SplitSign(s: string): (r: (Sign, string))
    ensures SignText(r.0) + r.1 == s
  {
    if |s| > 0 && s[0] == '-' then (Minus, s[1..])
    else if |s| > 0 && s[0] == '+' then (Plus, s[1..])
    else (NoSign, s)
  }

  /** Reads a numeral; any other text is a format error. */
  function ParseDecimal(s: string): Option<Decimal> {
    var body := SplitSign(s).1;
    var i := DotIndex(body);
    var dot := i < |body|;
    var whole := body[..i];
    var frac := if dot then body[i + 1..] else [];
    if AllDigits(whole) && AllDigits(frac) && |whole| + |frac| > 0 then Some(Decimal(SplitSign(s).0, whole, dot, frac))
    else None
  }

  /** What reads as a numeral is the text of that numeral. */
  lemma FormatParse(s: string)
    ensures ParseDecimal(s).Some? ==> ValidDecimal(ParseDecimal(s).value) && Format(ParseDecimal(s).value) == s
  {
    var body := SplitSign(s).1;
    var i := DotIndex(body);
    var dot := i < |body|;
    var whole := body[..i];
    var frac := if dot then body[i + 1..] else [];
    if dot {
      SplitAtDot(body, i);
    } else {
      assert whole == body;
    }
  }

  /** A text with a point at `i` is what comes before it, the point, and what follows it. */
  lemma SplitAtDot(body: string, i: nat)
    requires i < |body| && body[i] == '.'
    ensures body == body[..i] + "." + body[i + 1..]
  {
    assert body == body[..i] + body[i..];
    assert body[i..] == [body[i]] + body[i + 1..];
  }

  lemma {:induction false} DotIndexAfterDigits(whole: string, rest: string)
    requires AllDigits(whole) && (rest == [] || rest[0] == '.')
    ensures DotIndex(whole + rest) == |whole|
  {
    if whole != [] {
      assert (whole + rest)[1..] == whole[1..] + rest;
      DotIndexAfterDigits(whole[1..], rest);
    } else {
      assert whole + rest == rest;
    }
  }

  /** Every numeral reads back as itself. */
  lemma ParseFormat(d: Decimal)
    requires ValidDecimal(d)
    ensures ParseDecimal(Format(d)) == Some(d)
  {
    var rest := DotText(d.dot) + d.frac;
    var body := d.whole + rest;
    assert d.whole + DotText(d.dot) + d.frac == body;
    SplitSignOfNumeral(d, body);
    DotIndexAfterDigits(d.whole, rest);
    assert body[..|d.whole|] == d.whole;
    if d.dot {
      assert body[|d.whole| + 1..] == d.frac;
    }
  }

  /** The sign of a numeral's text is the numeral's sign. */
  lemma SplitSignOfNumeral(d: Decimal, body: string)
    requires ValidDecimal(d) && body == d.whole + (DotText(d.dot) + d.frac)
    ensures SplitSign(Format(d)) == (d.sign, body)
  {
    assert Format(d) == SignText(d.sign) + body;
    if d.sign == NoSign {
      assert Format(d) == body;
      if d.whole != [] {
        assert body[0] == d.whole[0] && IsDigit(d.whole[0]);
      } else {
        assert d.dot && body[0] == '.';
      }
    } else {
      assert Format(d)[1..] == body;
    }
  }

  /** A text reads as a numeral exactly when it is the text of a valid numeral. */
  lemma ParseDecimalExactly(s: string)
    ensures ParseDecimal(s).Some? <==> exists d :: ValidDecimal(d) && Format(d) == s
  {
    FormatParse(s);
    if d :| ValidDecimal(d) && Format(d) == s {
      ParseFormat(d);
    }
  }

  /** The natural number a string of decimal digits denotes. */
  function DigitsValue(ds: string): nat
    requires AllDigits(ds)
  {
    if ds == [] then 0 else DigitsValue(ds[..|ds| - 1]) * 10 + (ds[|ds| - 1] as int - '0' as int)
  }

  function Pow10(n: nat): (p: nat)
    ensures p > 0
  {
    if n == 0 then 1 else 10 * Pow10(n - 1)
  }

  /** The exact value of a numeral. */
  function DecimalValue(d: Decimal): real
    requires ValidDecimal(d)
  {
    var magnitude := DigitsValue(d.whole) as real + DigitsValue(d.frac) as real / Pow10(|d.frac|) as real;
    if d.sign == Minus then -magnitude else magnitude
  }

  /** `float(text)`. */
  function AsFloat(text: string): (r: Result<real>)
    ensures r.Failure? <==> ParseDecimal(text).None?
    ensures r.Failure? ==> r.error == FormatError(text)
    ensures r.Success? ==> r.value == DecimalValue(ParseDecimal(text).value)
  {
    match ParseDecimal(text)
    case Some(d) => Success(DecimalValue(d))
    case None => Failure(FormatError(text))
  }

  // ---------------------------------------------------------------------------
  // The series operations, cell by cell.

  /** `.str.replace(ch, "")` on one cell: a text loses the characters; a cell that is
      not a text (a missing cell included) becomes missing. */
  function StrReplaceCell(c: Cell, drop: set<char>): (r: Cell)
    ensures c.Str? ==> r == Str(StripChars(c.s, drop))
    ensures !c.Str? ==> r == Missing
  {
    if c.Str? then Str(StripChars(c.s, drop)) else Missing
  }

  /** `.astype(float)` on one cell: a missing cell stays missing, a number is widened,
      a text is read as a numeral or fails. */
  function AsFloatCell(c: Cell): (r: Result<Cell>)
    ensures r.Failure? <==> c.Str? && ParseDecimal(c.s).None?
    ensures r.Failure? ==> r.error == FormatError(c.s)
    ensures r.Success? ==> (r.value == Missing <==> c == Missing)
    ensures r.Success? && c != Missing ==> r.value.Real?
    ensures r.Success? ==> NumberOf(c).Some? ==> NumberOf(r.value) == NumberOf(c)
    ensures r.Success? && c.Str? ==> r.value == Real(DecimalValue(ParseDecimal(c.s).value))
  {
    match c
    case Missing => Success(Missing)
    case Int(i) => Success(Real(i as real))
    case Real(_) => Success(c)
    case Bool(b) => Success(Real(if b then 1.0 else 0.0))
    case Str(s) =>
      match AsFloat(s)
      case Success(v) => Success(Real(v))
      case Failure(e) => Failure(e)
  }

  /** `_parse_percentage` on one cell. */
  function PercentageCell(c: Cell): (r: Result<Cell>)
    ensures r.Success? <==> (c.Str? ==> ParseDecimal(StripChars(c.s, {'%'})).Some?)
    ensures r.Failure? ==> c.Str? && r.error == FormatError(StripChars(c.s, {'%'}))
    ensures r.Success? ==>
              r.value == if c.Str? then Real(DecimalValue(ParseDecimal(StripChars(c.s, {'%'})).value) / 100.0) else Missing
  {
    var f :- AsFloatCell(StrReplaceCell(c, {'%'}));
    Success(if f.Real? then Real(f.r / 100.0) else f)
  }

  /** `_parse_money` on one cell. */
  function MoneyCell(c: Cell): (r: Result<Cell>)
    ensures r.Success? <==> (c.Str? ==> ParseDecimal(StripChars(StripChars(c.s, {'$'}), {','})).Some?)
    ensures r.Failure? ==> c.Str? && r.error == FormatError(StripChars(StripChars(c.s, {'$'}), {','}))
    ensures r.Success? ==>
              r.value == if c.Str? then Real(DecimalValue(ParseDecimal(StripChars(StripChars(c.s, {'$'}), {','})).value))
                         else Missing
  {
    AsFloatCell(StrReplaceCell(StrReplaceCell(c, {'$'}), {','}))
  }

  /** A cell operation applied down a series: the series of results, or the error of
      the first cell that fails. */
  function Vectorise(x: seq<Cell>, f: Cell -> Result<Cell>): (r: Result<seq<Cell>>)
    ensures r.Success? <==> forall k :: 0 <= k < |x| ==> f(x[k]).Success?
    ensures r.Success? ==> |r.value| == |x| && forall k :: 0 <= k < |x| ==> r.value[k] == f(x[k]).value
    ensures r.Failure? ==> exists k :: 0 <= k < |x| && f(x[k]).Failure? && r.error == f(x[k]).error &&
                                      forall j :: 0 <= j < k ==> f(x[j]).Success?
  {
    if x == [] then Success([])
    else
      var head :- f(x[0]);
      var tail :- Vectorise(x[1..], f);
      Success([head] + tail)
  }

  /** `_parse_percentage`: every text cell loses its percent signs and is read as a
      numeral divided by 100; every other cell becomes missing. Fails on the first text
      that is not a numeral once stripped. */
  function ParsePercentage(x: seq<Cell>): (r: Result<seq<Cell>>)
    ensures r.Success? <==> forall k :: 0 <= k < |x| && x[k].Str? ==> ParseDecimal(StripChars(x[k].s, {'%'})).Some?
    ensures r.Failure? ==> exists k :: 0 <= k < |x| && x[k].Str? &&
                                      ParseDecimal(StripChars(x[k].s, {'%'})).None? &&
                                      r.error == FormatError(StripChars(x[k].s, {'%'})) &&
                                      forall j :: 0 <= j < k && x[j].Str? ==> ParseDecimal(StripChars(x[j].s, {'%'})).Some?
    ensures r.Success? ==> |r.value| == |x|
    ensures r.Success? ==> forall k :: 0 <= k < |x| ==>
              r.value[k] == if x[k].Str? then Real(DecimalValue(ParseDecimal(StripChars(x[k].s, {'%'})).value) / 100.0)
                            else Missing
  {
    Vectorise(x, PercentageCell)
  }

  /** `_parse_money`: every text cell loses its dollar signs and commas and is read as
      a numeral; every other cell becomes missing. Fails on the first text that is not
      a numeral once stripped. */
  function ParseMoney(x: seq<Cell>): (r: Result<seq<Cell>>)
    ensures r.Success? <==> forall k :: 0 <= k < |x| && x[k].Str? ==> ParseDecimal(StripChars(x[k].s, {'$', ','})).Some?
    ensures r.Failure? ==> exists k :: 0 <= k < |x| && x[k].Str? &&
                                      ParseDecimal(StripChars(x[k].s, {'$', ','})).None? &&
                                      r.error == FormatError(StripChars(x[k].s, {'$', ','})) &&
                                      forall j :: 0 <= j < k && x[j].Str? ==> ParseDecimal(StripChars(x[j].s, {'$', ','})).Some?
    ensures r.Success? ==> |r.value| == |x|
    ensures r.Success? ==> forall k :: 0 <= k < |x| ==>
              r.value[k] == if x[k].Str? then Real(DecimalValue(ParseDecimal(StripChars(x[k].s, {'$', ','})).value))
                            else Missing
  {
    forall k | 0 <= k < |x| && x[k].Str?
      ensures StripChars(StripChars(x[k].s, {'$'}), {','}) == StripChars(x[k].s, {'$', ','})
    {
      StripCharsCompose(x[k].s, {'$'}, {','});
      assert {'$'} + {','} == {'$', ','};
    }
    Vectorise(x, MoneyCell)
  }

  /** A numeral followed by a percent sign reads as its value divided by 100. */
  lemma PercentageOfNumeral(d: Decimal)
    requires ValidDecimal(d)
    ensures PercentageCell(Str(Format(d) + "%")) == Success(Real(DecimalValue(d) / 100.0))
  {
    var s := Format(d);
    NumeralHasNo(d, '%');
    StripCharsNothingToDo(s, {'%'});
    StripCharsAppend(s, "%", {'%'});
    assert StripChars("%", {'%'}) == [];
    assert StrReplaceCell(Str(s + "%"), {'%'}) == Str(s);
    ParseFormat(d);
    assert AsFloatCell(Str(s)) == Success(Real(DecimalValue(d)));
  }

  /** The text of a numeral holds only a sign, digits and a point. */
  lemma NumeralHasNo(d: Decimal, ch: char)
    requires ValidDecimal(d) && !IsDigit(ch) && ch != '+' && ch != '-' && ch != '.'
    ensures forall i :: 0 <= i < |Format(d)| ==> Format(d)[i] != ch
  {
    var a := SignText(d.sign);
    var b := d.whole + (DotText(d.dot) + d.frac);
    assert Format(d) == a + b;
    forall i | 0 <= i < |b|
      ensures b[i] != ch
    {
      if i < |d.whole| {
        assert b[i] == d.whole[i];
      } else if i < |d.whole| + |DotText(d.dot)| {
        assert b[i] == '.';
      } else {
        assert b[i] == d.frac[i - |d.whole| - |DotText(d.dot)|];
      }
    }
  }

  lemma DigitsOf85And100()
    ensures DigitsValue("85") == 85 && DigitsValue("100") == 100
  {
    assert "85"[..1] == "8";
    assert "100"[..2] == "10" && "10"[..1] == "1";
  }

  /** Worked example: "85%" reads as 0.85. */
  lemma PercentageExample85()
    ensures PercentageCell(Str("85%")) == Success(Real(0.85))
  {
    var d := Decimal(NoSign, "85", false, "");
    DigitsOf85And100();
    assert DecimalValue(d) == 85.0;
    assert Format(d) + "%" == "85%";
    PercentageOfNumeral(d);
  }

  /** Worked example: "100%" reads as 1.0. */
  lemma PercentageExample100()
    ensures PercentageCell(Str("100%")) == Success(Real(1.0))
  {
    var d := Decimal(NoSign, "100", false, "");
    DigitsOf85And100();
    assert DecimalValue(d) == 100.0;
    assert Format(d) + "%" == "100%";
    PercentageOfNumeral(d);
  }

  lemma StripDollarExample()
    ensures StripChars("$1,200.50", {'$'}) == "1,200.50"
  {
    assert "$1,200.50" == "$" + "1,200.50";
    StripCharsAppend("$", "1,200.50", {'$'});
    StripCharsNothingToDo("1,200.50", {'$'});
  }

  lemma StripCommaExample()
    ensures StripChars("1,200.50", {','}) == "1200.50"
  {
    assert "1,200.50" == "1" + ",200.50";
    StripCharsAppend("1", ",200.50", {','});
    StripLeadingComma();
  }

  lemma StripLeadingComma()
    ensures StripChars(",200.50", {','}) == "200.50"
  {
    assert ",200.50"[1..] == "200.50";
    StripCharsNothingToDo("200.50", {','});
  }

  lemma MoneyNumeral()
    ensures var d := Decimal(NoSign, "1200", true, "50");
      ValidDecimal(d) && Format(d) == "1200.50" && DecimalValue(d) == 1200.50
  {
    assert "1200"[..3] == "120" && "120"[..2] == "12" && "12"[..1] == "1" && "1"[..0] == "";
    assert DigitsValue("1") == 1;
    assert DigitsValue("12") == 12;
    assert DigitsValue("120") == 120;
    assert DigitsValue("1200") == 1200;
    assert "50"[..1] == "5" && "5"[..0] == "";
    assert DigitsValue("50") == 50;
    assert Pow10(2) == 100;
  }

  /** Worked example: "$1,200.50" reads as 1200.50. */
  lemma MoneyExample()
    ensures MoneyCell(Str("$1,200.50")) == Success(Real(1200.50))
  {
    var d := Decimal(NoSign, "1200", true, "50");
    StripDollarExample();
    StripCommaExample();
    assert StrReplaceCell(StrReplaceCell(Str("$1,200.50"), {'$'}), {','}) == Str("1200.50");
    MoneyNumeral();
    ParseFormat(d);
    assert AsFloat("1200.50") == Success(1200.50);
  }
}
