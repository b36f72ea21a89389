/** The legacy COMPS netCDF reader, apart from the file access itself: which
    stored variables are thresholds or quantiles, how the per-threshold arrays are
    stacked into one four-dimensional array, the units label and the format test.
    A file's variables are given as a map from name to an already cleaned
    (date, offset, location) array, and its iteration order as a sequence of names. */
module Comps {
  import opened Common
  import opened Numbers
  import opened CompsCodec

  /** The coordinate variables, which are never read as thresholds or quantiles. */
  const DimensionNames: seq<string> := ["Date", "Offset", "Location", "Lat", "Lon", "Elev"]

  /** netCDF variable names are never empty. */
  predicate NamesNonEmpty(names: seq<string>)
  {
    forall i | 0 <= i < |names| :: |names[i]| > 0
  }

  /** Some non-coordinate variable's name decodes to `v`. */
  predicate DecodedFrom(names: seq<string>, decode: string --> Option<Decimal>, v: Decimal)
    requires forall i | 0 <= i < |names| :: decode.requires(names[i])
  {
    exists i | 0 <= i < |names| :: names[i] !in DimensionNames && decode(names[i]) == Some(v)
  }

  /** The decoded names of the non-coordinate variables, in iteration order: the
      shared shape of `_get_thresholds` and `_get_quantiles`. */
  function Collect(names: seq<string>, decode: string --> Option<Decimal>): (values: seq<Decimal>)
    requires forall i | 0 <= i < |names| :: decode.requires(names[i])
    ensures |values| <= |names|
    ensures forall k | 0 <= k < |values| :: DecodedFrom(names, decode, values[k])
  {
    if names == [] then []
    else
      var init := names[..|names| - 1];
      var last := names[|names| - 1];
      var rest := Collect(init, decode);
      assert forall k | 0 <= k < |rest| :: DecodedFrom(names, decode, rest[k]) by {
        forall k | 0 <= k < |rest| ensures DecodedFrom(names, decode, rest[k]) {
          assert DecodedFrom(init, decode, rest[k]);
          var i :| 0 <= i < |init| && init[i] !in DimensionNames && decode(init[i]) == Some(rest[k]);
          assert names[i] == init[i];
        }
      }
      if last !in DimensionNames && decode(last).Some? then
        var values := rest + [decode(last).value];
        assert DecodedFrom(names, decode, values[|rest|]) by {
          assert names[|names| - 1] !in DimensionNames && decode(names[|names| - 1]) == Some(values[|rest|]);
        }
        assert forall k | 0 <= k < |rest| :: values[k] == rest[k];
        values
      else rest
  }

  /** A value is collected exactly when some non-coordinate variable's name decodes to it. */
  lemma {:induction false} CollectMembers(names: seq<string>, decode: string --> Option<Decimal>, v: Decimal)
    requires forall i | 0 <= i < |names| :: decode.requires(names[i])
    ensures v in Collect(names, decode) <==>
      exists i | 0 <= i < |names| :: names[i] !in DimensionNames && decode(names[i]) == Some(v)
  {
    var values := Collect(names, decode);
    if v in values {
      var k :| 0 <= k < |values| && values[k] == v;
      assert DecodedFrom(names, decode, values[k]);
    }
    if exists i | 0 <= i < |names| :: names[i] !in DimensionNames && decode(names[i]) == Some(v) {
      var i :| 0 <= i < |names| && names[i] !in DimensionNames && decode(names[i]) == Some(v);
      var init := names[..|names| - 1];
      if i < |init| {
        assert init[i] == names[i];
        CollectMembers(init, decode, v);
        assert v in Collect(init, decode);
      }
    }
  }

  /** `Comps._get_thresholds` (one pass over the variables, appending each decoded
      name) and, with the quantile decoder, `Comps._get_quantiles`. */
  method GetDecoded(names: seq<string>, decode: string --> Option<Decimal>) returns (values: seq<Decimal>)
    requires forall i | 0 <= i < |names| :: decode.requires(names[i])
    ensures values == Collect(names, decode)
  {
    values := [];
    for i := 0 to |names|
      invariant values == Collect(names[..i], decode)
    {
      assert names[..i + 1][..i] == names[..i];
      if names[i] !in DimensionNames {
        var value := decode(names[i]);
        if value.Some? {
          values := values + [value.value];
        }
      }
    }
    assert names[..|names|] == names;
  }

  /** A threshold is listed exactly when some non-coordinate variable's name decodes to it. */
  lemma ThresholdsListed(names: seq<string>, t: Decimal)
    requires NamesNonEmpty(names)
    ensures t in Collect(names, ThresholdOfName) <==>
      exists i | 0 <= i < |names| :: names[i] !in DimensionNames && ThresholdOfName(names[i]) == Some(t)
  {
    CollectMembers(names, ThresholdOfName, t);
  }

  /** A quantile is listed exactly when some non-coordinate variable's name decodes to it,
      and so every listed quantile lies in [0, 1]. */
  lemma QuantilesListed(names: seq<string>, p: Decimal)
    requires NamesNonEmpty(names)
    ensures p in Collect(names, QuantileOfName) <==>
      exists i | 0 <= i < |names| :: names[i] !in DimensionNames && QuantileOfName(names[i]) == Some(p)
    ensures p in Collect(names, QuantileOfName) ==> Canonical(p) && 0.0 <= Value(p) <= 100.0
  {
    CollectMembers(names, QuantileOfName, p);
  }

  predicate SameShape(a: array3<Val>, b: array3<Val>)
  {
    a.Length0 == b.Length0 && a.Length1 == b.Length1 && a.Length2 == b.Length2
  }

  /** A four-dimensional array whose first three dimensions are those of `a`. */
  predicate SameShape3(values: array4<Val>, a: array3<Val>)
  {
    values.Length0 == a.Length0 && values.Length1 == a.Length1 && values.Length2 == a.Length2
  }

  /** Every named array is stored, with the shape of the first one. */
  predicate Stackable(names: seq<string>, store: map<string, array3<Val>>)
  {
    |names| > 0 && names[0] in store &&
    forall t | 0 <= t < |names| :: names[t] in store && SameShape(store[names[t]], store[names[0]])
  }

  /** Copies a stored array into slice `t` of `values`, leaving the other slices alone. */
  method CopySlice(values: array4<Val>, t: nat, temp: array3<Val>)
    requires t < values.Length3
    requires temp.Length0 == values.Length0 && temp.Length1 == values.Length1 && temp.Length2 == values.Length2
    modifies values
    ensures forall d, o, l | 0 <= d < values.Length0 && 0 <= o < values.Length1 && 0 <= l < values.Length2 ::
      values[d, o, l, t] == temp[d, o, l]
    ensures forall d, o, l, u | 0 <= d < values.Length0 && 0 <= o < values.Length1 && 0 <= l < values.Length2
      && 0 <= u < values.Length3 && u != t :: values[d, o, l, u] == old(values[d, o, l, u])
  {
    for d := 0 to values.Length0
      invariant forall d', o, l | 0 <= d' < d && 0 <= o < values.Length1 && 0 <= l < values.Length2 ::
        values[d', o, l, t] == temp[d', o, l]
      invariant forall d', o, l, u | 0 <= d' < values.Length0 && 0 <= o < values.Length1 && 0 <= l < values.Length2
        && 0 <= u < values.Length3 && u != t :: values[d', o, l, u] == old(values[d', o, l, u])
    {
      for o := 0 to values.Length1
        invariant forall d', o', l | 0 <= d' < d && 0 <= o' < values.Length1 && 0 <= l < values.Length2 ::
          values[d', o', l, t] == temp[d', o', l]
        invariant forall o', l | 0 <= o' < o && 0 <= l < values.Length2 :: values[d, o', l, t] == temp[d, o', l]
        invariant forall d', o', l, u | 0 <= d' < values.Length0 && 0 <= o' < values.Length1 && 0 <= l < values.Length2
          && 0 <= u < values.Length3 && u != t :: values[d', o', l, u] == old(values[d', o', l, u])
      {
        for l := 0 to values.Length2
          invariant forall d', o', l' | 0 <= d' < d && 0 <= o' < values.Length1 && 0 <= l' < values.Length2 ::
            values[d', o', l', t] == temp[d', o', l']
          invariant forall o', l' | 0 <= o' < o && 0 <= l' < values.Length2 :: values[d, o', l', t] == temp[d, o', l']
          invariant forall l' | 0 <= l' < l :: values[d, o, l', t] == temp[d, o, l']
          invariant forall d', o', l', u | 0 <= d' < values.Length0 && 0 <= o' < values.Length1 && 0 <= l' < values.Length2
            && 0 <= u < values.Length3 && u != t :: values[d', o', l', u] == old(values[d', o', l', u])
        {
          values[d, o, l, t] := temp[d, o, l];
        }
      }
    }
  }

  /** The loop of `Comps.threshold_scores` and `Comps.quantile_scores` over the stored
      names: no names gives no array; a missing name or a differently shaped array
      aborts; otherwise slice t is the array stored under `names[t]`. */
  method StackScores(names: seq<string>, store: map<string, array3<Val>>)
    returns (r: Result<Option<array4<Val>>>)
    ensures names == [] ==> r == Success(None)
    ensures names != [] ==> (r.Success? <==> Stackable(names, store))
    ensures r.Success? && names != [] ==> r.value.Some? && fresh(r.value.value)
    ensures r.Success? && names != [] ==>
      var values := r.value.value;
      && SameShape3(values, store[names[0]]) && values.Length3 == |names|
      && forall d, o, l, t | 0 <= d < values.Length0 && 0 <= o < values.Length1 && 0 <= l < values.Length2
           && 0 <= t < |names| :: values[d, o, l, t] == store[names[t]][d, o, l]
  {
    if names == [] {
      return Success(None);
    }
    if names[0] !in store {
      return Failure(MissingVariable(names[0]));
    }
    var first := store[names[0]];
    var values := new Val[first.Length0, first.Length1, first.Length2, |names|]((d, o, l, t) => Some(0.0));
    for t := 0 to |names|
      invariant forall t' | 0 <= t' < t :: names[t'] in store && SameShape(store[names[t']], first)
      invariant forall d, o, l, t' | 0 <= d < values.Length0 && 0 <= o < values.Length1 && 0 <= l < values.Length2
        && 0 <= t' < t :: values[d, o, l, t'] == store[names[t']][d, o, l]
    {
      if names[t] !in store {
        return Failure(MissingVariable(names[t]));
      }
      var temp := store[names[t]];
      if !SameShape(temp, first) {
        return Failure(ShapeMismatch(names[t]));
      }
      CopySlice(values, t, temp);
    }
    return Success(Some(values));
  }

  /** The stored names of a list of thresholds. */
  function ThresholdNames(thresholds: seq<Decimal>): (names: seq<string>)
    requires forall i | 0 <= i < |thresholds| :: ThresholdEncodable(thresholds[i])
    ensures |names| == |thresholds|
    ensures forall i | 0 <= i < |names| :: names[i] == ThresholdName(thresholds[i])
  {
    seq(|thresholds|, i requires 0 <= i < |thresholds| => ThresholdName(thresholds[i]))
  }

  /** `Comps.threshold_scores`: slice t is the array stored under the encoding of `thresholds[t]`. */
  method ThresholdScores(thresholds: seq<Decimal>, store: map<string, array3<Val>>)
    returns (r: Result<Option<array4<Val>>>)
    requires forall i | 0 <= i < |thresholds| :: ThresholdEncodable(thresholds[i])
    ensures thresholds == [] ==> r == Success(None)
    ensures thresholds != [] ==> (r.Success? <==> Stackable(ThresholdNames(thresholds), store))
    ensures r.Success? && thresholds != [] ==> r.value.Some? && fresh(r.value.value)
    ensures r.Success? && thresholds != [] ==>
      var values, names := r.value.value, ThresholdNames(thresholds);
      && SameShape3(values, store[names[0]]) && values.Length3 == |thresholds|
      && forall d, o, l, t | 0 <= d < values.Length0 && 0 <= o < values.Length1 && 0 <= l < values.Length2
           && 0 <= t < |thresholds| :: values[d, o, l, t] == store[names[t]][d, o, l]
  {
    r := StackScores(ThresholdNames(thresholds), store);
  }

  /** The stored names of a list of quantiles in [0, 1], given as percents. */
  function QuantileNames(quantiles: seq<Decimal>): (names: seq<string>)
    requires forall i | 0 <= i < |quantiles| ::
      QuantileEncodable(quantiles[i]) && 0.0 <= Value(quantiles[i]) <= 100.0
    ensures |names| == |quantiles|
    ensures forall i | 0 <= i < |names| :: Some(names[i]) == QuantileName(quantiles[i])
  {
    seq(|quantiles|, i requires 0 <= i < |quantiles| => QuantileName(quantiles[i]).value)
  }

  /** `Comps.quantile_scores`: slice q is the array stored under the encoding of `quantiles[q]`. */
  method QuantileScores(quantiles: seq<Decimal>, store: map<string, array3<Val>>)
    returns (r: Result<Option<array4<Val>>>)
    requires forall i | 0 <= i < |quantiles| ::
      QuantileEncodable(quantiles[i]) && 0.0 <= Value(quantiles[i]) <= 100.0
    ensures quantiles == [] ==> r == Success(None)
    ensures quantiles != [] ==> (r.Success? <==> Stackable(QuantileNames(quantiles), store))
    ensures r.Success? && quantiles != [] ==> r.value.Some? && fresh(r.value.value)
    ensures r.Success? && quantiles != [] ==>
      var values, names := r.value.value, QuantileNames(quantiles);
      && SameShape3(values, store[names[0]]) && values.Length3 == |quantiles|
      && forall d, o, l, q | 0 <= d < values.Length0 && 0 <= o < values.Length1 && 0 <= l < values.Length2
           && 0 <= q < |quantiles| :: values[d, o, l, q] == store[names[q]][d, o, l]
  {
    r := StackScores(QuantileNames(quantiles), store);
  }

  /** The units label of `_get_variable` (also used by the CF reader): no `Units`
      attribute or an empty one reads "No units", `%` stays `%`, anything else is
      wrapped in `$` for math-mode typesetting. */
  function UnitsLabel(units: Option<string>): (shown: string)
    ensures |shown| > 0
    ensures shown == "No units" <==> units == None || units == Some("")
    ensures units.Some? && units.value != "" ==> shown[0] in "%$"
  {
    if units.None? || units.value == "" then "No units"
    else if units.value == "%" then "%"
    else
      var wrapped := "$" + units.value + "$";
      assert wrapped[0] == '$' && "No units"[0] == 'N';
      wrapped
  }

  /** Distinct non-empty units get distinct labels, and the label gives the units back. */
  lemma UnitsLabelInjective(a: string, b: string)
    requires a != "" && b != ""
    ensures UnitsLabel(Some(a)) == UnitsLabel(Some(b)) ==> a == b
  {
    var la, lb := UnitsLabel(Some(a)), UnitsLabel(Some(b));
    if a != "%" {
      assert la[0] == '$' && la[1..|la| - 1] == a;
    }
    if b != "%" {
      assert lb[0] == '$' && lb[1..|lb| - 1] == b;
    }
  }

  /** The netCDF attributes a format test looks at, when the file opens as netCDF at all. */
  type Attributes = map<string, string>

  /** `NetcdfCf.is_valid`: a file that does not open as netCDF is refused; one that opens
      is accepted exactly when it declares the `verif_1.0.0` conventions. */
  predicate CfIsValid(file: Option<Attributes>): (r: bool)
    ensures r ==> file.Some? && "Conventions" in file.value
  {
    if file.None? then false
    else "Conventions" in file.value && file.value["Conventions"] == "verif_1.0.0"
  }

  /** The CF test reads only the `Conventions` attribute: files that agree on it get the
      same answer, whatever else they hold. */
  lemma CfReadsOnlyConventions(a: Attributes, b: Attributes)
    requires ("Conventions" in a) == ("Conventions" in b)
    requires "Conventions" in a ==> a["Conventions"] == b["Conventions"]
    ensures CfIsValid(Some(a)) == CfIsValid(Some(b))
  {
  }

  /** How the `try` body of a format test ends: with a returned value, or by raising. */
  datatype Outcome = Returns(value: bool) | Raises

  /** The `try` body of `Comps.is_valid` as written. Opening a file that is not netCDF
      raises. The `and` reads `Convension` only when `Convensions` is present, and reading
      a missing attribute raises. Otherwise the body returns True: the `valid` flag the
      comparison may set is never returned. */
  function CompsTry(file: Option<Attributes>): Outcome
  {
    if file.None? then Raises
    else if "Convensions" !in file.value then Returns(true)
    else if "Convension" !in file.value then Raises
    else Returns(true)
  }

  /** `Comps.is_valid`: the `except` turns a raise into False. What the test amounts to:
      a file is accepted when it opens, unless it has `Convensions` without `Convension`. */
  predicate CompsIsValid(file: Option<Attributes>): (r: bool)
    ensures r <==> file.Some? && ("Convensions" in file.value ==> "Convension" in file.value)
  {
    match CompsTry(file)
    case Raises => false
    case Returns(v) => v
  }

  /** The value of the attribute the test compares never matters. */
  lemma CompsIgnoresConvention(attrs: Attributes, v: string)
    requires "Convension" in attrs
    ensures CompsIsValid(Some(attrs)) && CompsIsValid(Some(attrs["Convension" := v]))
  {
  }

  /** The COMPS test looks only at which attributes a file has, never at their values, and
      accepts every file that opens and has `Convension` or lacks `Convensions`. */
  lemma CompsAcceptsOpenFiles(attrs: Attributes, other: Attributes)
    requires other.Keys == attrs.Keys
    ensures CompsIsValid(Some(attrs)) == CompsIsValid(Some(other))
    ensures "Convension" in attrs || "Convensions" !in attrs ==> CompsIsValid(Some(attrs))
    ensures !CompsIsValid(None)
  {
  }

  /** Every file the CF test accepts would pass the COMPS test too (bar the misspelt
      attribute pair), so the order in which `get_input` tries them decides the reader. */
  lemma CfFilesPassComps(file: Option<Attributes>)
    requires CfIsValid(file)
    requires !("Convensions" in file.value && "Convension" !in file.value)
    ensures CompsIsValid(file)
  {
  }
}
