/** Request standardisation and the exact-AQI path of the prediction
    service: the pollutant values of one request are brought to the
    canonical units of the AQI tables, laid out as one feature row for the
    model, and, independently, turned into the exact AQI. */
module Predict {
  import opened Wrappers
  import Aqi
  import Preprocessing

  /** The request's pollutant fields, in the order the request schema
      declares them. */
  const InputPollutants: seq<string> := ["pm25", "pm10", "no2", "o3", "co", "so2"]

  /** A raw pollutant value of a request: absent, NaN, or a number. */
  datatype RawValue = Null | NaN | Value(v: real)

  /** `pollutant_values.get(p)`: absent keys read as absent values. */
  function RawOf(values: map<string, RawValue>, p: string): RawValue {
    if p in values then values[p] else Null
  }

  /** The unit a request gives for `p`, counting an empty string as none
      (the `if unit:` test). */
  function UnitGiven(units: map<string, Option<string>>, p: string): (u: Option<string>)
    ensures u.Some? <==> |units| != 0 && Get(units, p).Some? && Get(units, p).value != ""
    ensures u.Some? ==> u == Get(units, p)
  {
    var unit := if |units| != 0 then Get(units, p) else None;
    if unit.Some? && unit.value != "" then unit else None
  }

  /** What the standardised entry of pollutant `p` is: absent for an absent
      or NaN value; the converted value when a unit is given (absent when the
      conversion fails); otherwise the value itself, taken as canonical. */
  function StandardValue(p: string, values: map<string, RawValue>, units: map<string, Option<string>>): (r: Option<real>)
    ensures !RawOf(values, p).Value? ==> r.None?
    ensures r.Some? && UnitGiven(units, p).Some? ==>
      && Aqi.ConvertToStandard(p, Some(RawOf(values, p).v), UnitGiven(units, p)).Some?
      && Aqi.ConvertToStandard(p, Some(RawOf(values, p).v), UnitGiven(units, p)).value.value == r.value
    ensures RawOf(values, p).Value? && UnitGiven(units, p).Some? ==>
      (r.Some? <==> Aqi.ConvertToStandard(p, Some(RawOf(values, p).v), UnitGiven(units, p)).Some?)
    ensures RawOf(values, p).Value? && UnitGiven(units, p).None? ==> r == Some(RawOf(values, p).v)
  {
    match RawOf(values, p)
    case Value(v) =>
      var unit := UnitGiven(units, p);
      if unit.Some? then
        match Aqi.ConvertToStandard(p, Some(v), unit)
        case None => None
        case Some(s) => Some(s.value)
      else Some(v)
    case _ => None
  }

  /** `_standardize_pollutants`: one entry per input pollutant, and nothing
      else. */
  method StandardizePollutants(values: map<string, RawValue>, units: map<string, Option<string>>)
    returns (standardized: map<string, Option<real>>)
    ensures standardized.Keys == set p | p in InputPollutants
    ensures forall p :: p in standardized ==> standardized[p] == StandardValue(p, values, units)
  {
    standardized := map[];
    for i := 0 to |InputPollutants|
      invariant standardized.Keys == set p | p in InputPollutants[..i]
      invariant forall p :: p in standardized ==> standardized[p] == StandardValue(p, values, units)
    {
      assert InputPollutants[..i + 1] == InputPollutants[..i] + [InputPollutants[i]];
      var pollutant := InputPollutants[i];
      var value := RawOf(values, pollutant);
      var unit := if |units| != 0 then Get(units, pollutant) else None;
      if value.Null? || value.NaN? {
        standardized := standardized[pollutant := None];
        continue;
      }
      if unit.Some? && unit.value != "" {
        var converted := Aqi.ConvertToStandard(pollutant, Some(value.v), unit);
        standardized := standardized[pollutant := if converted.Some? then Some(converted.value.value) else None];
      } else {
        standardized := standardized[pollutant := Some(value.v)];
      }
    }
    assert InputPollutants[..|InputPollutants|] == InputPollutants;
  }

  /** Every input pollutant is one of the AQI table keys. */
  lemma InputPollutantsAreCodes(p: string)
    requires p in InputPollutants
    ensures Aqi.PollutantOf(p).Some? && Aqi.Code(Aqi.PollutantOf(p).value) == p
  {
  }

  /** A value given without a unit is read in the canonical unit: passing it
      through is what converting it from the canonical unit gives. */
  lemma NoUnitMeansCanonical(q: Aqi.Pollutant, values: map<string, RawValue>, units: map<string, Option<string>>)
    requires RawOf(values, Aqi.Code(q)).Value? && UnitGiven(units, Aqi.Code(q)).None?
    ensures var p := Aqi.Code(q);
      && StandardValue(p, values, units).Some?
      && Aqi.ConvertToStandard(p, Some(RawOf(values, p).v), Some(Aqi.CanonicalUnit(q)))
         == Some(Aqi.StdReading(StandardValue(p, values, units).value, Aqi.CanonicalUnit(q)))
  {
    var p := Aqi.Code(q);
    var v := RawOf(values, p).v;
    assert StandardValue(p, values, units) == Some(v);
    Aqi.CodeLookup(q);
    Aqi.NormalizeCanonical(q);
    assert Aqi.ConvertToStandard(p, Some(v), Some(Aqi.CanonicalUnit(q))) == Some(Aqi.StdReading(v, Aqi.CanonicalUnit(q)));
  }

  /** Standardisation never changes what is measured: a standardised value
      in the canonical unit denotes the raw value's mass concentration in
      the unit it was given in. */
  lemma StandardPreservesMass(p: string, values: map<string, RawValue>, units: map<string, Option<string>>)
    requires p in InputPollutants && UnitGiven(units, p).Some? && StandardValue(p, values, units).Some?
    ensures var q := Aqi.PollutantOf(p).value;
      && Aqi.CanonicalUnit(q) in Aqi.SupportedUnits(q)
      && Aqi.NormalizeUnit(UnitGiven(units, p)).Some?
      && Aqi.NormalizeUnit(UnitGiven(units, p)).value in Aqi.SupportedUnits(q)
      && Aqi.MassConcentration(q, StandardValue(p, values, units).value, Aqi.CanonicalUnit(q))
         == Aqi.MassConcentration(q, RawOf(values, p).v, Aqi.NormalizeUnit(UnitGiven(units, p)).value)
  {
    Aqi.ConvertPreservesMass(p, Some(RawOf(values, p).v), UnitGiven(units, p));
  }

  /** The raw reading of `p` as a number, absent for an absent or NaN value. */
  function RawNumber(values: map<string, RawValue>, p: string): Option<real> {
    if RawOf(values, p).Value? then Some(RawOf(values, p).v) else None
  }

  /** The sub-index of a standardised value, read as canonical, is the
      sub-index of the raw reading in the unit the request gave it. */
  lemma StandardKeepsSubIndex(p: string, values: map<string, RawValue>, units: map<string, Option<string>>)
    requires p in InputPollutants
    ensures Aqi.Iaqi(p, StandardValue(p, values, units), None) == Aqi.Iaqi(p, RawNumber(values, p), UnitGiven(units, p))
  {
    InputPollutantsAreCodes(p);
    var q := Aqi.PollutantOf(p).value;
    var unit := UnitGiven(units, p);
    match RawOf(values, p)
    case Value(v) =>
      if unit.Some? {
        match Aqi.ConvertToStandard(p, Some(v), unit)
        case None =>
        case Some(s) =>
          Aqi.IaqiCanonical(q, s.value);
      }
    case _ =>
  }

  // ---------------------------------------------------------------------------
  // The exact AQI
  // ---------------------------------------------------------------------------

  /** A row whose values are all absent has no sub-index. */
  lemma {:induction false} AllAbsentNoSubIndex(ps: seq<Aqi.Pollutant>, row: map<string, Option<real>>, units: map<string, Option<string>>)
    requires forall c :: c in row ==> row[c].None?
    ensures Aqi.SubIndices(ps, row, units) == []
  {
    if ps != [] {
      AllAbsentNoSubIndex(ps[..|ps| - 1], row, units);
    }
  }

  /** `compute_exact_aqi`: undefined when every standardised value is absent,
      otherwise the AQI of the values read as canonical, with its category. */
  method ComputeExactAqi(standardized: map<string, Option<real>>) returns (aqi: Option<real>, category: Option<Aqi.Category>)
    ensures (forall p :: p in standardized ==> standardized[p].None?) ==> aqi.None? && category.None?
    ensures Aqi.IsAqiOf(aqi, Aqi.SubIndices(Aqi.Keys, standardized, map[]))
    ensures category == Aqi.AqiCategory(aqi)
    ensures category.None? <==> aqi.None?
  {
    var rowValues := map p | p in standardized :: if standardized[p].None? then None else Some(standardized[p].value);
    assert rowValues == standardized;
    var hasAny := exists p :: p in rowValues && rowValues[p].Some?;
    if !hasAny {
      AllAbsentNoSubIndex(Aqi.Keys, rowValues, map[]);
      return None, None;
    }
    aqi := Aqi.ComputeAqiRow(rowValues, map[]);
    category := Aqi.AqiCategory(aqi);
  }

  /** Sub-indices computed pollutant by pollutant agree when every
      pollutant's sub-index agrees. */
  lemma {:induction false} SubIndicesAgree(ps: seq<Aqi.Pollutant>, row: map<string, Option<real>>, units: map<string, Option<string>>,
                                           row': map<string, Option<real>>, units': map<string, Option<string>>)
    requires forall p :: p in ps ==> Aqi.SubIndexOf(p, row, units) == Aqi.SubIndexOf(p, row', units')
    ensures Aqi.SubIndices(ps, row, units) == Aqi.SubIndices(ps, row', units')
  {
    if ps != [] {
      SubIndicesAgree(ps[..|ps| - 1], row, units, row', units');
      assert ps[|ps| - 1] in ps;
    }
  }

  /** The standardised row of a request, as `_standardize_pollutants`
      returns it. */
  function StandardRow(values: map<string, RawValue>, units: map<string, Option<string>>): map<string, Option<real>> {
    map p | p in InputPollutants :: StandardValue(p, values, units)
  }

  /** The exact AQI of a request is the AQI of its raw readings, each taken
      in the unit the request gave it: standardising first changes nothing. */
  lemma ExactAqiOfRawReadings(values: map<string, RawValue>, units: map<string, Option<string>>)
    ensures Aqi.SubIndices(Aqi.Keys, StandardRow(values, units), map[])
         == Aqi.SubIndices(Aqi.Keys,
                           map p | p in InputPollutants :: RawNumber(values, p),
                           map p | p in InputPollutants :: UnitGiven(units, p))
  {
    var row := map p | p in InputPollutants :: RawNumber(values, p);
    var unitRow := map p | p in InputPollutants :: UnitGiven(units, p);
    forall q | q in Aqi.Keys
      ensures Aqi.SubIndexOf(q, StandardRow(values, units), map[]) == Aqi.SubIndexOf(q, row, unitRow)
    {
      var c := Aqi.Code(q);
      Aqi.CodeLookup(q);
      assert c in InputPollutants by {
        match q
        case PM25 => case PM10 => case O3 => case CO => case SO2 => case NO2 =>
      }
      StandardKeepsSubIndex(c, values, units);
    }
    SubIndicesAgree(Aqi.Keys, StandardRow(values, units), map[], row, unitRow);
  }

  // ---------------------------------------------------------------------------
  // Provided pollutants and the feature row
  // ---------------------------------------------------------------------------

  /** The pollutants of `ps` whose raw value is not absent, in order. */
  function ProvidedAmong(ps: seq<string>, values: map<string, RawValue>): (r: seq<string>)
    ensures forall p :: p in r <==> p in ps && RawOf(values, p) != Null
    ensures |r| <= |ps|
  {
    if ps == [] then []
    else
      var rest := ProvidedAmong(ps[..|ps| - 1], values);
      assert forall p :: p in ps <==> p in ps[..|ps| - 1] || p == ps[|ps| - 1];
      if RawOf(values, ps[|ps| - 1]) != Null then rest + [ps[|ps| - 1]] else rest
  }

  /** `provided`: the request's pollutants whose value is not absent, in
      schema order. A NaN value counts as provided. */
  function Provided(values: map<string, RawValue>): (r: seq<string>)
    ensures forall p :: p in r <==> p in InputPollutants && RawOf(values, p) != Null
  {
    ProvidedAmong(InputPollutants, values)
  }

  /** The provided names keep the order they have in `ps`. */
  lemma {:induction false} ProvidedAmongInOrder(ps: seq<string>, values: map<string, RawValue>)
    ensures Preprocessing.IsSubsequence(ProvidedAmong(ps, values), ps)
  {
    if ps != [] {
      var init := ps[..|ps| - 1];
      ProvidedAmongInOrder(init, values);
      var r := ProvidedAmong(ps, values);
      if RawOf(values, ps[|ps| - 1]) != Null {
        assert r[..|r| - 1] == ProvidedAmong(init, values);
      }
    }
  }

  /** `provided` lists the pollutants in schema order. */
  lemma ProvidedInOrder(values: map<string, RawValue>)
    ensures Preprocessing.IsSubsequence(Provided(values), InputPollutants)
  {
    ProvidedAmongInOrder(InputPollutants, values);
  }

  /** A pollutant can be provided and still have no standardised value,
      here because its unit is not one the conversion covers. */
  lemma ProvidedButUnconverted()
    ensures var values := map["pm25" := Value(10.0)];
            var units := map["pm25" := Some("ppb")];
            && "pm25" in Provided(values)
            && StandardValue("pm25", values, units).None?
  {
    var values := map["pm25" := Value(10.0)];
    var units := map["pm25" := Some("ppb")];
    assert "pm25" in InputPollutants && RawOf(values, "pm25") != Null;
    assert |units| == 1 by {
      assert units.Keys == {"pm25"};
    }
    assert UnitGiven(units, "pm25") == Some("ppb");
    Aqi.NormalizeFolded("ppb");
    Aqi.CodeLookup(Aqi.PM25);
    assert "ppb" !in Aqi.SupportedUnits(Aqi.PM25);
  }

  /** A NaN value is provided, yet standardises to nothing. */
  lemma NaNProvided(values: map<string, RawValue>, units: map<string, Option<string>>, p: string)
    requires p in InputPollutants && RawOf(values, p) == NaN
    ensures p in Provided(values) && StandardValue(p, values, units).None?
  {
  }

  /** A feature cell: missing (NaN), a number, or the request's timestamp. */
  datatype Feature = Missing | Number(x: real) | Stamp(t: int)

  /** The calendar features of the request's timestamp, computed outside
      this model. */
  datatype TimeFeatures = TimeFeatures(hour: int, dayOfWeek: int, month: int)

  /** The fields of a prediction request this path reads. */
  datatype Request = Request(latitude: real, longitude: real, timestamp: int,
                             pollutants: map<string, RawValue>, units: map<string, Option<string>>)

  /** The name of the missingness flag of pollutant `p`. */
  function MissingFlag(p: string): string {
    p + "_is_missing"
  }

  /** A standardised value as a frame cell. */
  function CellOf(v: Option<real>): Feature {
    if v.None? then Missing else Number(v.value)
  }

  /** `isna().astype(int)`. */
  function FlagOf(c: Feature): Feature {
    Number(if c.Missing? then 1.0 else 0.0)
  }

  /** The frame row after each of `ps` got its standardised value. */
  function WithPollutants(m: map<string, Feature>, std: map<string, Option<real>>, ps: seq<string>): map<string, Feature> {
    if ps == [] then m
    else
      var p := ps[|ps| - 1];
      WithPollutants(m, std, ps[..|ps| - 1])[p := CellOf(if p in std then std[p] else None)]
  }

  /** The frame row after each of `ps` got its missingness flag. */
  function WithFlags(m: map<string, Feature>, ps: seq<string>): map<string, Feature> {
    if ps == [] then m
    else
      var p := ps[|ps| - 1];
      var m' := WithFlags(m, ps[..|ps| - 1]);
      m'[MissingFlag(p) := FlagOf(if p in m' then m'[p] else Missing)]
  }

  /** The one-row frame `build_feature_frame` assembles before selecting the
      feature columns. */
  function FrameRow(req: Request, time: TimeFeatures): map<string, Feature> {
    var base := map["latitude" := Number(req.latitude), "longitude" := Number(req.longitude), "timestamp" := Stamp(req.timestamp)];
    var withValues := WithPollutants(base, StandardRow(req.pollutants, req.units), InputPollutants);
    var withTime := withValues["hour" := Number(time.hour as real)]["day_of_week" := Number(time.dayOfWeek as real)]["month" := Number(time.month as real)];
    WithFlags(withTime, InputPollutants)
  }

  /** The frame's cell for column `col`, missing for a column it lacks. */
  function FeatureValue(req: Request, time: TimeFeatures, col: string): Feature {
    var row := FrameRow(req, time);
    if col in row then row[col] else Missing
  }

  /** `build_feature_frame`: the feature row with exactly `featureCols`, in
      order, together with the standardised values and the provided list. */
  method BuildFeatureFrame(req: Request, featureCols: seq<string>, time: TimeFeatures)
    returns (x: seq<Feature>, standardized: map<string, Option<real>>, provided: seq<string>)
    ensures |x| == |featureCols|
    ensures forall i :: 0 <= i < |featureCols| ==> x[i] == FeatureValue(req, time, featureCols[i])
    ensures standardized == StandardRow(req.pollutants, req.units)
    ensures provided == Provided(req.pollutants)
  {
    standardized := StandardizePollutants(req.pollutants, req.units);
    assert standardized == StandardRow(req.pollutants, req.units);
    var df: map<string, Feature> := map["latitude" := Number(req.latitude), "longitude" := Number(req.longitude), "timestamp" := Stamp(req.timestamp)];
    ghost var base := df;
    for i := 0 to |InputPollutants|
      invariant df == WithPollutants(base, standardized, InputPollutants[..i])
    {
      assert InputPollutants[..i + 1][..i] == InputPollutants[..i];
      var p := InputPollutants[i];
      df := df[p := CellOf(if p in standardized then standardized[p] else None)];
    }
    assert InputPollutants[..|InputPollutants|] == InputPollutants;
    df := df["hour" := Number(time.hour as real)]["day_of_week" := Number(time.dayOfWeek as real)]["month" := Number(time.month as real)];
    ghost var withTime := df;
    for i := 0 to |InputPollutants|
      invariant df == WithFlags(withTime, InputPollutants[..i])
    {
      assert InputPollutants[..i + 1][..i] == InputPollutants[..i];
      var p := InputPollutants[i];
      df := df[MissingFlag(p) := FlagOf(if p in df then df[p] else Missing)];
    }
    assert df == FrameRow(req, time);
    x := SelectFeatures(df, featureCols);
    provided := Provided(req.pollutants);
  }

  /** The missing feature columns added as NaN, then `df[feature_cols]`:
      each requested column's cell, or missing where the row lacks it. */
  method SelectFeatures(row: map<string, Feature>, featureCols: seq<string>) returns (x: seq<Feature>)
    ensures |x| == |featureCols|
    ensures forall i :: 0 <= i < |featureCols| ==>
      x[i] == if featureCols[i] in row then row[featureCols[i]] else Missing
  {
    var df := row;
    for i := 0 to |featureCols|
      invariant forall c :: c in df <==> c in row || c in featureCols[..i]
      invariant forall c :: c in df ==> df[c] == if c in row then row[c] else Missing
    {
      assert featureCols[..i + 1] == featureCols[..i] + [featureCols[i]];
      if featureCols[i] !in df {
        df := df[featureCols[i] := Missing];
      }
    }
    assert forall i :: 0 <= i < |featureCols| ==> featureCols[i] in featureCols[..|featureCols|];
    x := seq(|featureCols|, i requires 0 <= i < |featureCols| => df[featureCols[i]]);
  }

  /** Distinct pollutants have distinct flag names. */
  lemma MissingFlagInjective(p: string, q: string)
    ensures MissingFlag(p) == MissingFlag(q) ==> p == q
  {
    if MissingFlag(p) == MissingFlag(q) {
      assert p == MissingFlag(p)[..|p|];
    }
  }

  /** Filling in the pollutants sets each of them and leaves every other
      column as it was. */
  lemma {:induction false} WithPollutantsAt(m: map<string, Feature>, std: map<string, Option<real>>, ps: seq<string>, k: string)
    ensures k in ps ==> k in WithPollutants(m, std, ps)
                        && WithPollutants(m, std, ps)[k] == CellOf(if k in std then std[k] else None)
    ensures k !in ps ==> (k in WithPollutants(m, std, ps) <==> k in m)
    ensures k !in ps && k in m ==> WithPollutants(m, std, ps)[k] == m[k]
  {
    if ps != [] {
      WithPollutantsAt(m, std, ps[..|ps| - 1], k);
      assert k in ps <==> k in ps[..|ps| - 1] || k == ps[|ps| - 1];
    }
  }

  /** Adding flags leaves every column that is not a flag as it was. */
  lemma {:induction false} WithFlagsOther(m: map<string, Feature>, ps: seq<string>, k: string)
    requires forall q :: q in ps ==> MissingFlag(q) != k
    ensures k in WithFlags(m, ps) <==> k in m
    ensures k in m ==> WithFlags(m, ps)[k] == m[k]
  {
    if ps != [] {
      WithFlagsOther(m, ps[..|ps| - 1], k);
      assert ps[|ps| - 1] in ps;
    }
  }

  /** The flag of a pollutant whose own column no flag overwrites says
      whether that column is missing. */
  lemma {:induction false} WithFlagsFlag(m: map<string, Feature>, ps: seq<string>, p: string)
    requires p in ps
    requires forall q :: q in ps ==> MissingFlag(q) != p
    ensures MissingFlag(p) in WithFlags(m, ps)
    ensures WithFlags(m, ps)[MissingFlag(p)] == FlagOf(if p in m then m[p] else Missing)
  {
    var init, last := ps[..|ps| - 1], ps[|ps| - 1];
    assert forall q :: q in init ==> q in ps;
    WithFlagsOther(m, init, p);
    if p != last {
      assert p in init;
      WithFlagsFlag(m, init, p);
      MissingFlagInjective(p, last);
    }
  }

  /** No column name shorter than a flag name is one; the pollutant names
      are among them. */
  lemma NotFlag(k: string, q: string)
    requires |k| < 11 || (|k| == 11 && k != "_is_missing")
    ensures MissingFlag(q) != k
  {
    assert |MissingFlag(q)| == |q| + 11;
    if |q| == 0 {
      assert MissingFlag(q) == "_is_missing";
    }
  }

  /** The row before the flags: coordinates, timestamp, standardised values
      and calendar features. */
  function ValuesRow(req: Request, time: TimeFeatures): map<string, Feature> {
    var base := map["latitude" := Number(req.latitude), "longitude" := Number(req.longitude), "timestamp" := Stamp(req.timestamp)];
    var withValues := WithPollutants(base, StandardRow(req.pollutants, req.units), InputPollutants);
    withValues["hour" := Number(time.hour as real)]["day_of_week" := Number(time.dayOfWeek as real)]["month" := Number(time.month as real)]
  }

  lemma ValuesRowPollutant(req: Request, time: TimeFeatures, p: string)
    requires p in InputPollutants
    ensures p in ValuesRow(req, time)
    ensures ValuesRow(req, time)[p] == CellOf(StandardValue(p, req.pollutants, req.units))
  {
    var base := map["latitude" := Number(req.latitude), "longitude" := Number(req.longitude), "timestamp" := Stamp(req.timestamp)];
    WithPollutantsAt(base, StandardRow(req.pollutants, req.units), InputPollutants, p);
  }

  /** Each input pollutant's column holds its standardised value. */
  lemma PollutantFeature(req: Request, time: TimeFeatures, p: string)
    requires p in InputPollutants
    ensures FeatureValue(req, time, p) == CellOf(StandardValue(p, req.pollutants, req.units))
  {
    assert FrameRow(req, time) == WithFlags(ValuesRow(req, time), InputPollutants);
    ValuesRowPollutant(req, time, p);
    forall q | q in InputPollutants ensures MissingFlag(q) != p {
      NotFlag(p, q);
    }
    WithFlagsOther(ValuesRow(req, time), InputPollutants, p);
  }

  /** `{p}_is_missing` is 1 exactly when the standardised value of `p` is
      missing, and 0 otherwise. */
  lemma MissingFlagFeature(req: Request, time: TimeFeatures, p: string)
    requires p in InputPollutants
    ensures FeatureValue(req, time, MissingFlag(p)) == Number(if StandardValue(p, req.pollutants, req.units).None? then 1.0 else 0.0)
  {
    assert FrameRow(req, time) == WithFlags(ValuesRow(req, time), InputPollutants);
    ValuesRowPollutant(req, time, p);
    forall q | q in InputPollutants ensures MissingFlag(q) != p {
      NotFlag(p, q);
    }
    WithFlagsFlag(ValuesRow(req, time), InputPollutants, p);
  }

  /** The coordinates are copied from the request. */
  lemma CoordinateFeatures(req: Request, time: TimeFeatures)
    ensures FeatureValue(req, time, "latitude") == Number(req.latitude)
    ensures FeatureValue(req, time, "longitude") == Number(req.longitude)
  {
    var base := map["latitude" := Number(req.latitude), "longitude" := Number(req.longitude), "timestamp" := Stamp(req.timestamp)];
    var std := StandardRow(req.pollutants, req.units);
    assert FrameRow(req, time) == WithFlags(ValuesRow(req, time), InputPollutants);
    WithPollutantsAt(base, std, InputPollutants, "latitude");
    WithPollutantsAt(base, std, InputPollutants, "longitude");
    forall q ensures MissingFlag(q) != "latitude" && MissingFlag(q) != "longitude" {
      NotFlag("latitude", q);
      NotFlag("longitude", q);
    }
    WithFlagsOther(ValuesRow(req, time), InputPollutants, "latitude");
    WithFlagsOther(ValuesRow(req, time), InputPollutants, "longitude");
  }

  /** The calendar features are those of the request's timestamp. */
  lemma CalendarFeatures(req: Request, time: TimeFeatures)
    ensures FeatureValue(req, time, "hour") == Number(time.hour as real)
    ensures FeatureValue(req, time, "day_of_week") == Number(time.dayOfWeek as real)
    ensures FeatureValue(req, time, "month") == Number(time.month as real)
  {
    assert FrameRow(req, time) == WithFlags(ValuesRow(req, time), InputPollutants);
    forall q ensures MissingFlag(q) != "hour" && MissingFlag(q) != "day_of_week" && MissingFlag(q) != "month" {
      NotFlag("hour", q);
      NotFlag("day_of_week", q);
      NotFlag("month", q);
    }
    WithFlagsOther(ValuesRow(req, time), InputPollutants, "hour");
    WithFlagsOther(ValuesRow(req, time), InputPollutants, "day_of_week");
    WithFlagsOther(ValuesRow(req, time), InputPollutants, "month");
  }
}
