/** The column-level rules of the text reader: how a cell is read, which header
    columns carry quantiles and thresholds, and which index each column name gets. */
module TextFields {
  import opened Common
  import opened Numbers

  /** The value the format uses for a missing number. */
  const Missing: real := -999.0

  /** `Text._clean`: the number a cell holds, with the missing-value marker read as NaN;
      a cell that is not a number aborts the load. */
  function Clean(token: string): (r: Result<Val>)
    ensures r.Failure? <==> ParseDecimal(token).None?
    ensures r.Failure? ==> r.error == NotANumber(token)
    ensures r == Success(None) <==> ParseDecimal(token).Some? && Value(ParseDecimal(token).value) == Missing
    ensures r.Success? && r.value.Some? ==>
      r.value.value != Missing && r.value.value == Value(ParseDecimal(token).value)
  {
    match ParseDecimal(token)
    case None => Failure(NotANumber(token))
    case Some(d) => if Value(d) == Missing then Success(None) else Success(Some(Value(d)))
  }

  /** Reading a printed number gives its value back, except that the marker reads as NaN. */
  lemma CleanRender(d: Decimal)
    requires Canonical(d)
    ensures Clean(Render(d)) == if Value(d) == Missing then Success(None) else Success(Some(Value(d)))
  {
    assert ParseDecimal(Render(d)) == Some(d) by { ParseRender(d); }
  }

  /** Header tokens come from `split()`, so none is empty. */
  predicate Tokens(header: seq<string>)
  {
    forall i | 0 <= i < |header| :: |header[i]| > 0
  }

  /** `Text._get_quantile_fields`: the columns whose name starts with `q`, in header order. */
  function QuantileFields(header: seq<string>): (fields: seq<string>)
    requires Tokens(header)
    ensures |fields| <= |header|
    ensures forall f :: f in fields <==> f in header && f[0] == 'q'
  {
    if header == [] then []
    else (if header[0][0] == 'q' then [header[0]] else []) + QuantileFields(header[1..])
  }

  /** `Text._get_threshold_fields`: the columns whose name starts with `p`, other than
      `pit`, in header order. */
  function ThresholdFields(header: seq<string>): (fields: seq<string>)
    requires Tokens(header)
    ensures |fields| <= |header|
    ensures forall f :: f in fields <==> f in header && f[0] == 'p' && f != "pit"
  {
    if header == [] then []
    else (if header[0][0] == 'p' && header[0] != "pit" then [header[0]] else []) + ThresholdFields(header[1..])
  }

  /** A column is never both a quantile and a threshold column. */
  lemma FieldsDisjoint(header: seq<string>, f: string)
    requires Tokens(header)
    ensures !(f in QuantileFields(header) && f in ThresholdFields(header))
  {
  }

  /** The index the header loop gives each column name: every branch of the loop stores
      `indices[att] = i`, so a repeated name keeps its last position. */
  function HeaderMap(header: seq<string>): (m: map<string, nat>)
    ensures forall c | c in m :: m[c] < |header| && header[m[c]] == c
  {
    if header == [] then map[]
    else HeaderMap(header[..|header| - 1])[header[|header| - 1] := |header| - 1]
  }

  /** The header map names exactly the header's columns, each at its last position. */
  lemma {:induction false} HeaderMapLast(header: seq<string>)
    ensures HeaderMap(header).Keys == set i | 0 <= i < |header| :: header[i]
    ensures forall c | c in HeaderMap(header) ::
      HeaderMap(header)[c] < |header| && header[HeaderMap(header)[c]] == c &&
      forall j | HeaderMap(header)[c] < j < |header| :: header[j] != c
  {
    if header != [] {
      var init := header[..|header| - 1];
      HeaderMapLast(init);
      assert forall i | 0 <= i < |init| :: init[i] == header[i];
      assert (set i | 0 <= i < |header| :: header[i]) == (set i | 0 <= i < |init| :: init[i]) + {header[|header| - 1]};
    }
  }
}
