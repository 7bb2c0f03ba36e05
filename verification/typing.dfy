/** Column typing (`smart_convert_column`): a raw column of strings becomes
    numeric when enough of its entries parse as numbers, and otherwise keeps
    its original text. Only numeric columns take part in the stale and zero
    passes. */
module ColumnTyping {
  import opened Types
  import opened Counting

  /** The threshold the column extraction passes. */
  const DefaultThreshold: real := 0.8

  predicate IsDigit(c: char)
  {
    '0' <= c <= '9'
  }

  predicate AllDigits(s: string)
  {
    forall i :: 0 <= i < |s| ==> IsDigit(s[i])
  }

  /** The value of a string of decimal digits. */
  function DigitsValue(s: string): nat
    requires AllDigits(s)
    decreases |s|
  {
    if |s| == 0 then 0
    else DigitsValue(s[..|s| - 1]) * 10 + (s[|s| - 1] as int - '0' as int)
  }

  /** Numeric parsing of one entry: an optional sign followed by at least
      one decimal digit. */
  function ParseInt(s: string): Option<int>
  {
    if |s| > 1 && (s[0] == '-' || s[0] == '+') && AllDigits(s[1..]) then
      var magnitude: int := DigitsValue(s[1..]);
      Some(if s[0] == '-' then -magnitude else magnitude)
    else if |s| > 0 && AllDigits(s) then Some(DigitsValue(s))
    else None
  }

  /** Decimal rendering of a natural number, without leading zeros. */
  function ShowNat(n: nat): (s: string)
    ensures |s| > 0 && AllDigits(s)
    decreases n
  {
    if n < 10 then [('0' as int + n) as char]
    else ShowNat(n / 10) + [('0' as int + n % 10) as char]
  }

  /** Decimal rendering of an integer, with a leading minus when negative. */
  function ShowInt(n: int): string
  {
    if n < 0 then "-" + ShowNat(-n) else ShowNat(n)
  }

  lemma {:induction false} ShowNatRoundTrip(n: nat)
    ensures DigitsValue(ShowNat(n)) == n
    decreases n
  {
    if n >= 10 {
      ShowNatRoundTrip(n / 10);
      var s := ShowNat(n);
      assert s[..|s| - 1] == ShowNat(n / 10);
    }
  }

  /** Every integer's decimal rendering parses back to that integer. */
  lemma ParseShowRoundTrip(n: int)
    ensures ParseInt(ShowInt(n)) == Some(n)
  {
    if n < 0 {
      ShowNatRoundTrip(-n);
      assert ShowInt(n)[1..] == ShowNat(-n);
    } else {
      ShowNatRoundTrip(n);
      assert ShowInt(n)[0] != '-' && ShowInt(n)[0] != '+';
    }
  }

  /** `pd.to_numeric(..., errors='coerce')` on one entry: the parsed number,
      or a missing value when the entry does not parse. */
  function ToNumeric(s: string): (c: Cell)
    ensures !c.Text?
    ensures c.Num? <==> ParseInt(s).Some?
  {
    match ParseInt(s)
    case Some(n) => Num(n)
    case None => Missing
  }

  /** Which entries parse (`notna()` of the converted column). */
  function Parsed(raw: seq<string>): (ok: seq<bool>)
    ensures |ok| == |raw|
    ensures forall i :: 0 <= i < |raw| ==> (ok[i] <==> ParseInt(raw[i]).Some?)
  {
    seq(|raw|, i requires 0 <= i < |raw| => ParseInt(raw[i]).Some?)
  }

  /** A column after typing: numeric cells or its original text. */
  datatype TypedColumn = TypedColumn(numeric: bool, cells: seq<Cell>)

  /** `smart_convert_column`: a column none of whose entries parse stays
      text; otherwise it becomes numeric exactly when the parsed entries make
      up at least `threshold` of the whole column, unparsed entries included.
      A numeric result holds the parsed numbers (missing where an entry did
      not parse) and no text; a text result holds every original entry. */
  function SmartConvertColumn(raw: seq<string>, threshold: real): (r: TypedColumn)
    ensures |r.cells| == |raw|
    ensures r.numeric ==> forall i :: 0 <= i < |raw| ==>
      r.cells[i] == ToNumeric(raw[i]) && !r.cells[i].Text?
    ensures !r.numeric ==> forall i :: 0 <= i < |raw| ==> r.cells[i] == Text(raw[i])
    ensures r.numeric <==> CountTrue(Parsed(raw)) > 0 && MeetsShare(CountTrue(Parsed(raw)), |raw|, threshold)
  {
    var converted := seq(|raw|, i requires 0 <= i < |raw| => ToNumeric(raw[i]));
    var original := seq(|raw|, i requires 0 <= i < |raw| => Text(raw[i]));
    var valid := CountTrue(Parsed(raw));
    if valid == 0 then TypedColumn(false, original)
    else
      RatioAtLeast(valid, |raw|, threshold);
      if ValidRatio(valid, |raw|) >= threshold then TypedColumn(true, converted)
      else TypedColumn(false, original)
  }

  /** `notna().sum() / len(...)`. */
  function ValidRatio(valid: nat, total: nat): real
    requires 0 < total
  {
    (valid as real) / (total as real)
  }

  /** `valid` entries out of `total` make up at least `threshold` of them. */
  predicate MeetsShare(valid: nat, total: nat, threshold: real)
  {
    (valid as real) >= threshold * (total as real)
  }

  /** A ratio reaches a threshold exactly when the count reaches the
      threshold's share of the total. */
  lemma RatioAtLeast(valid: nat, total: nat, threshold: real)
    requires 0 < total
    ensures ValidRatio(valid, total) >= threshold <==> MeetsShare(valid, total, threshold)
  {
    var q := (valid as real) / (total as real);
    assert q * (total as real) == valid as real;
    if q >= threshold {
      assert q * (total as real) >= threshold * (total as real);
    } else {
      assert q * (total as real) < threshold * (total as real);
    }
  }

  /** A column with no parseable entry stays text whatever the threshold. */
  lemma UnparseableStaysText(raw: seq<string>, threshold: real)
    requires forall i :: 0 <= i < |raw| ==> ParseInt(raw[i]).None?
    ensures !SmartConvertColumn(raw, threshold).numeric
    ensures SmartConvertColumn(raw, threshold).cells == seq(|raw|, i requires 0 <= i < |raw| => Text(raw[i]))
  {
  }

  /** A non-empty column whose every entry parses becomes numeric for any
      threshold up to 1. */
  lemma FullyParsedBecomesNumeric(raw: seq<string>, threshold: real)
    requires |raw| > 0 && threshold <= 1.0
    requires forall i :: 0 <= i < |raw| ==> ParseInt(raw[i]).Some?
    ensures SmartConvertColumn(raw, threshold).numeric
  {
    var ok := Parsed(raw);
    assert forall i :: 0 <= i < |ok| ==> ok[i];
    assert CountTrue(ok) == |raw|;
    WholeMeetsShare(|raw|, threshold);
  }

  /** A whole column meets any share up to 1. */
  lemma WholeMeetsShare(total: nat, threshold: real)
    requires threshold <= 1.0
    ensures MeetsShare(total, total, threshold)
  {
    assert (1.0 - threshold) * (total as real) >= 0.0;
  }

  /** Lowering the threshold never turns a numeric column back into text. */
  lemma LowerThresholdKeepsNumeric(raw: seq<string>, threshold: real, lower: real)
    requires lower <= threshold
    requires SmartConvertColumn(raw, threshold).numeric
    ensures SmartConvertColumn(raw, lower).numeric
  {
    assert lower * (|raw| as real) <= threshold * (|raw| as real);
  }
}
