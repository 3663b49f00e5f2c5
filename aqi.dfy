/** The US EPA Air Quality Index engine: unit conversion to the units of the
    breakpoint tables, the piecewise-linear sub-index, the max-aggregation of
    sub-indices and the category step function.
    Concentrations are reals; a missing value or a NaN is `None`. */
module Aqi {
  import opened Wrappers
  import opened Strings

  // ---------------------------------------------------------------------------
  // Pollutants and the static reference data
  // ---------------------------------------------------------------------------

  datatype Pollutant = PM25 | PM10 | O3 | CO | SO2 | NO2

  /** The keys of the breakpoint dictionary, in its order. */
  const Keys: seq<Pollutant> := [PM25, PM10, O3, CO, SO2, NO2]

  function Code(p: Pollutant): string {
    match p
    case PM25 => "pm25"
    case PM10 => "pm10"
    case O3 => "o3"
    case CO => "co"
    case SO2 => "so2"
    case NO2 => "no2"
  }

  /** Dictionary lookup by pollutant code: `None` when the code is not a key. */
  function PollutantOf(s: string): (r: Option<Pollutant>)
    ensures r.Some? ==> Code(r.value) == s
    ensures r.None? ==> forall p :: Code(p) != s
  {
    if s == "pm25" then Some(PM25)
    else if s == "pm10" then Some(PM10)
    else if s == "o3" then Some(O3)
    else if s == "co" then Some(CO)
    else if s == "so2" then Some(SO2)
    else if s == "no2" then Some(NO2)
    else None
  }

  /** Every key of the dictionary is one of the six pollutants, once. */
  lemma KeysAreAllPollutants()
    ensures forall p :: p in Keys
    ensures forall i, j :: 0 <= i < j < |Keys| ==> Keys[i] != Keys[j]
  {
    forall p ensures p in Keys {
      match p
      case PM25 => assert Keys[0] == p;
      case PM10 => assert Keys[1] == p;
      case O3 => assert Keys[2] == p;
      case CO => assert Keys[3] == p;
      case SO2 => assert Keys[4] == p;
      case NO2 => assert Keys[5] == p;
    }
  }

  /** The unit each breakpoint table is written in. */
  function CanonicalUnit(p: Pollutant): string {
    match p
    case PM25 => "ug/m3"
    case PM10 => "ug/m3"
    case O3 => "ppm"
    case CO => "ppm"
    case SO2 => "ppb"
    case NO2 => "ppb"
  }

  /** One tier: the closed concentration range [bpLow, bpHigh] maps onto the
      index range [iLow, iHigh]. */
  datatype Breakpoint = Breakpoint(bpLow: real, bpHigh: real, iLow: int, iHigh: int)

  predicate InTier(b: Breakpoint, x: real) {
    b.bpLow <= x <= b.bpHigh
  }

  /** A table as the EPA defines it: it starts at concentration 0 and index 0,
      ends at index 500, each tier is a proper interval on both sides, and
      each tier starts strictly above the previous one's concentration and
      one index step above its index. */
  ghost predicate WellFormed(t: seq<Breakpoint>) {
    && |t| > 0
    && t[0].bpLow == 0.0 && t[0].iLow == 0
    && t[|t| - 1].iHigh == 500
    && (forall i :: 0 <= i < |t| ==> t[i].bpLow < t[i].bpHigh && t[i].iLow < t[i].iHigh)
    && (forall i :: 0 < i < |t| ==> t[i - 1].bpHigh < t[i].bpLow && t[i].iLow == t[i - 1].iHigh + 1)
  }

  predicate ProperTiers(t: seq<Breakpoint>) {
    forall i :: 0 <= i < |t| ==> t[i].bpLow < t[i].bpHigh
  }

  /** The breakpoint table of a pollutant (pre-2024 PM2.5 tiers). */
  function Table(p: Pollutant): seq<Breakpoint>
  {
    match p
    case PM25 => [
      Breakpoint(0.0, 12.0, 0, 50),
      Breakpoint(12.1, 35.4, 51, 100),
      Breakpoint(35.5, 55.4, 101, 150),
      Breakpoint(55.5, 150.4, 151, 200),
      Breakpoint(150.5, 250.4, 201, 300),
      Breakpoint(250.5, 350.4, 301, 400),
      Breakpoint(350.5, 500.4, 401, 500)]
    case PM10 => [
      Breakpoint(0.0, 54.0, 0, 50),
      Breakpoint(55.0, 154.0, 51, 100),
      Breakpoint(155.0, 254.0, 101, 150),
      Breakpoint(255.0, 354.0, 151, 200),
      Breakpoint(355.0, 424.0, 201, 300),
      Breakpoint(425.0, 504.0, 301, 400),
      Breakpoint(505.0, 604.0, 401, 500)]
    case O3 => [
      Breakpoint(0.000, 0.054, 0, 50),
      Breakpoint(0.055, 0.070, 51, 100),
      Breakpoint(0.071, 0.085, 101, 150),
      Breakpoint(0.086, 0.105, 151, 200),
      Breakpoint(0.106, 0.200, 201, 300),
      Breakpoint(0.201, 0.604, 301, 500)]
    case CO => [
      Breakpoint(0.0, 4.4, 0, 50),
      Breakpoint(4.5, 9.4, 51, 100),
      Breakpoint(9.5, 12.4, 101, 150),
      Breakpoint(12.5, 15.4, 151, 200),
      Breakpoint(15.5, 30.4, 201, 300),
      Breakpoint(30.5, 40.4, 301, 400),
      Breakpoint(40.5, 50.4, 401, 500)]
    case SO2 => [
      Breakpoint(0.0, 35.0, 0, 50),
      Breakpoint(36.0, 75.0, 51, 100),
      Breakpoint(76.0, 185.0, 101, 150),
      Breakpoint(186.0, 304.0, 151, 200),
      Breakpoint(305.0, 604.0, 201, 300),
      Breakpoint(605.0, 804.0, 301, 400),
      Breakpoint(805.0, 1004.0, 401, 500)]
    case NO2 => [
      Breakpoint(0.0, 53.0, 0, 50),
      Breakpoint(54.0, 100.0, 51, 100),
      Breakpoint(101.0, 360.0, 101, 150),
      Breakpoint(361.0, 649.0, 151, 200),
      Breakpoint(650.0, 1249.0, 201, 300),
      Breakpoint(1250.0, 1649.0, 301, 400),
      Breakpoint(1650.0, 2049.0, 401, 500)]
  }

  /** Every breakpoint table is well formed. */
  lemma TableWellFormed(p: Pollutant)
    ensures WellFormed(Table(p)) && ProperTiers(Table(p))
  {
    var t := Table(p);
    assert |t| > 0;
    forall i | 0 <= i < |t| ensures t[i].bpLow < t[i].bpHigh && t[i].iLow < t[i].iHigh {
    }
    forall i | 0 < i < |t| ensures t[i - 1].bpHigh < t[i].bpLow && t[i].iLow == t[i - 1].iHigh + 1 {
    }
  }

  /** Tiers later in a well-formed table lie strictly above earlier ones, in
      concentration and in index. */
  lemma {:induction false} TiersAscending(t: seq<Breakpoint>, i: nat, j: nat)
    requires WellFormed(t) && i < j < |t|
    ensures t[i].bpHigh < t[j].bpLow && t[i].iHigh < t[j].iLow
    decreases j - i
  {
    if j > i + 1 {
      TiersAscending(t, i, j - 1);
    }
  }

  /** No value lies in two tiers of a well-formed table. */
  lemma AtMostOneTier(t: seq<Breakpoint>, x: real, i: nat, j: nat)
    requires WellFormed(t) && i < |t| && j < |t|
    requires InTier(t[i], x) && InTier(t[j], x)
    ensures i == j
  {
    if i < j {
      TiersAscending(t, i, j);
    } else if j < i {
      TiersAscending(t, j, i);
    }
  }

  /** Every tier of a well-formed table lies within concentrations
      [0, top] and indices [0, 500]. */
  lemma TierBounds(t: seq<Breakpoint>, i: nat)
    requires WellFormed(t) && i < |t|
    ensures 0.0 <= t[i].bpLow && t[i].bpHigh <= t[|t| - 1].bpHigh
    ensures 0 <= t[i].iLow && t[i].iHigh <= 500
  {
    if i > 0 {
      TiersAscending(t, 0, i);
    }
    if i < |t| - 1 {
      TiersAscending(t, i, |t| - 1);
    }
  }

  /** Molecular weights (g/mol) of the gaseous pollutants. */
  function MolecularWeight(p: Pollutant): (r: Option<real>)
    ensures r.Some? <==> p in {O3, NO2, SO2, CO}
    ensures r.Some? ==> r.value > 0.0
  {
    match p
    case O3 => Some(48.00)
    case NO2 => Some(46.01)
    case SO2 => Some(64.07)
    case CO => Some(28.01)
    case _ => None
  }

  // ---------------------------------------------------------------------------
  // Unit conversion
  // ---------------------------------------------------------------------------

  /** ug/m3 to ppm at 25 C and 1 atm (molar volume 24.45 L). */
  function UgM3ToPpm(valueUgM3: real, mw: real): real
    requires mw != 0.0
  {
    (valueUgM3 * 24.45) / (mw * 1000.0)
  }

  /** ppm to ug/m3 at 25 C and 1 atm. */
  function PpmToUgM3(valuePpm: real, mw: real): real
  {
    (valuePpm * mw * 1000.0) / 24.45
  }

  /** The two ideal-gas conversions are inverse to each other, exactly. */
  lemma UgM3PpmRoundTrip(v: real, mw: real)
    requires mw != 0.0
    ensures PpmToUgM3(UgM3ToPpm(v, mw), mw) == v
    ensures UgM3ToPpm(PpmToUgM3(v, mw), mw) == v
  {
    var k := mw * 1000.0;
    assert k != 0.0;
    calc {
      PpmToUgM3(UgM3ToPpm(v, mw), mw);
      ((v * 24.45) / k * mw * 1000.0) / 24.45;
      { assert (v * 24.45) / k * mw * 1000.0 == (v * 24.45) / k * k; }
      ((v * 24.45) / k * k) / 24.45;
      { assert (v * 24.45) / k * k == v * 24.45; }
      (v * 24.45) / 24.45;
      v;
    }
    calc {
      UgM3ToPpm(PpmToUgM3(v, mw), mw);
      ((v * mw * 1000.0) / 24.45 * 24.45) / k;
      { assert (v * mw * 1000.0) / 24.45 * 24.45 == v * mw * 1000.0; }
      (v * mw * 1000.0) / k;
      { assert v * mw * 1000.0 == v * k; }
      (v * k) / k;
      v;
    }
  }

  /** The round trip holds for every gas of the molecular-weight table. */
  lemma GasRoundTrip(p: Pollutant, v: real)
    requires MolecularWeight(p).Some?
    ensures PpmToUgM3(UgM3ToPpm(v, MolecularWeight(p).value), MolecularWeight(p).value) == v
  {
    UgM3PpmRoundTrip(v, MolecularWeight(p).value);
  }

  /** Unit text in normal form: no white space at either end, no upper-case
      letter, no micro sign, and none of the spellings of "per cubic metre"
      that normalisation folds. */
  predicate IsNormalUnit(u: string) {
    && Trimmed(u) && NoUpper(u) && 'µ' !in u
    && NoOccurrence(u, "ug/m^3") && NoOccurrence(u, "ug/m³") && NoOccurrence(u, "mg/m³")
  }

  /** The folds of the micro sign and of the caret and superscript-three
      spellings of "per cubic metre", in the order they are applied. */
  function FoldUnit(u: string): string {
    var u := ReplaceAll(u, "µ", "u");
    var u := ReplaceAll(u, "ug/m^3", "ug/m3");
    var u := ReplaceAll(u, "ug/m³", "ug/m3");
    ReplaceAll(u, "mg/m³", "mg/m3")
  }

  /** Unit text after trimming, lower-casing and folding. The result is in
      normal form (`NormalizeUnitNormal`), so normalising it again changes
      nothing (`NormalizeUnitIdempotent`). */
  function NormalizeUnit(unit: Option<string>): (r: Option<string>)
    ensures r.Some? <==> unit.Some?
  {
    match unit
    case None => None
    case Some(s) => Some(FoldUnit(Lower(Strip(s))))
  }

  /** Normalised text has nothing left to trim, lower-case or fold. */
  lemma NormalizeUnitNormal(unit: Option<string>)
    ensures unit.Some? ==> IsNormalUnit(NormalizeUnit(unit).value)
  {
    if unit.Some? {
      LowerStripTrimmed(unit.value);
      FoldUnitNormal(Lower(Strip(unit.value)));
    }
  }

  /** Trimming, then lower-casing, leaves text trimmed and lower-case. */
  lemma LowerStripTrimmed(s: string)
    ensures Trimmed(Lower(Strip(s))) && NoUpper(Lower(Strip(s)))
  {
  }

  /** No occurrence of a folded spelling can straddle "ug/m3". */
  lemma NoStraddleUg(q: string)
    requires q == "ug/m^3" || q == "ug/m³"
    ensures NoStraddle("ug/m3", q)
  {
    var rep := "ug/m3";
    forall j | 0 <= j < |rep|
      ensures !Agree(rep[j..], q)
    {
      if j == 0 {
        assert rep[j..][4] != q[4];
      } else {
        assert rep[j..][0] != q[0];
      }
    }
    forall j | 1 <= j < |q|
      ensures !Agree(q[j..], rep)
    {
      assert q[j..][0] != rep[0];
    }
  }

  /** No occurrence of a folded spelling can straddle "mg/m3". */
  lemma NoStraddleMg(q: string)
    requires q == "ug/m^3" || q == "ug/m³" || q == "mg/m³"
    ensures NoStraddle("mg/m3", q)
  {
    var rep := "mg/m3";
    forall j | 0 <= j < |rep|
      ensures !Agree(rep[j..], q)
    {
      if q[0] == 'u' {
        assert rep[j..][0] != q[0];
      } else if j == 0 {
        assert rep[j..][4] != q[4];
      } else if j == 3 {
        assert rep[j..][1] != q[1];
      } else {
        assert rep[j..][0] != q[0];
      }
    }
    forall j | 1 <= j < |q|
      ensures !Agree(q[j..], rep)
    {
      if j == 3 {
        assert q[j..][1] != rep[1];
      } else {
        assert q[j..][0] != rep[0];
      }
    }
  }

  /** The micro sign cannot straddle a replacement without one. */
  lemma NoStraddleMicro(rep: string)
    requires 'µ' !in rep
    ensures NoStraddle(rep, "µ")
  {
    forall j | 0 <= j < |rep|
      ensures !Agree(rep[j..], "µ")
    {
      assert rep[j..][0] == rep[j];
    }
  }

  /** The folds turn trimmed lower-case text into normal form. */
  lemma FoldUnitNormal(u: string)
    requires Trimmed(u) && NoUpper(u)
    ensures IsNormalUnit(FoldUnit(u))
  {
    var u2 := ReplaceAll(u, "µ", "u");
    var u3 := ReplaceAll(u2, "ug/m^3", "ug/m3");
    var u4 := ReplaceAll(u3, "ug/m³", "ug/m3");
    var u5 := ReplaceAll(u4, "mg/m³", "mg/m3");
    NoStraddleMicro("u");
    NoStraddleMicro("ug/m3");
    NoStraddleMicro("mg/m3");
    NoStraddleUg("ug/m^3");
    NoStraddleUg("ug/m³");
    NoStraddleMg("ug/m^3");
    NoStraddleMg("ug/m³");
    NoStraddleMg("mg/m³");
    ReplaceAllKeepsFolded(u, "µ", "u");
    ReplaceAllRemoves(u, "µ", "u");
    ReplaceAllKeepsFolded(u2, "ug/m^3", "ug/m3");
    ReplaceAllRemoves(u2, "ug/m^3", "ug/m3");
    ReplaceAllKeepsAbsent(u2, "ug/m^3", "ug/m3", "µ");
    ReplaceAllKeepsFolded(u3, "ug/m³", "ug/m3");
    ReplaceAllRemoves(u3, "ug/m³", "ug/m3");
    ReplaceAllKeepsAbsent(u3, "ug/m³", "ug/m3", "µ");
    ReplaceAllKeepsAbsent(u3, "ug/m³", "ug/m3", "ug/m^3");
    ReplaceAllKeepsFolded(u4, "mg/m³", "mg/m3");
    ReplaceAllRemoves(u4, "mg/m³", "mg/m3");
    ReplaceAllKeepsAbsent(u4, "mg/m³", "mg/m3", "µ");
    ReplaceAllKeepsAbsent(u4, "mg/m³", "mg/m3", "ug/m^3");
    ReplaceAllKeepsAbsent(u4, "mg/m³", "mg/m3", "ug/m³");
    NoOccurrenceChar(u5, 'µ');
  }

  /** Text in normal form is left alone by normalisation. */
  lemma NormalizeNormalFixed(s: string)
    requires IsNormalUnit(s)
    ensures NormalizeUnit(Some(s)) == Some(s)
  {
    StripUnchanged(s);
    LowerUnchanged(s);
    NoOccurrenceChar(s, 'µ');
    ReplaceAllNoOccurrence(s, "µ", "u");
    ReplaceAllNoOccurrence(s, "ug/m^3", "ug/m3");
    ReplaceAllNoOccurrence(s, "ug/m³", "ug/m3");
    ReplaceAllNoOccurrence(s, "mg/m³", "mg/m3");
  }

  /** Normalising a unit twice is the same as normalising it once. */
  lemma NormalizeUnitIdempotent(unit: Option<string>)
    ensures NormalizeUnit(NormalizeUnit(unit)) == NormalizeUnit(unit)
  {
    if unit.Some? {
      NormalizeUnitNormal(unit);
      NormalizeNormalFixed(NormalizeUnit(unit).value);
    }
  }

  /** Text with nothing to trim, lower-case or fold is already normalised. */
  lemma NormalizeFolded(s: string)
    requires s == [] || (!IsSpace(s[0]) && !IsSpace(s[|s| - 1]))
    requires forall i :: 0 <= i < |s| ==> !IsUpper(s[i])
    requires 'µ' !in s && '^' !in s && '³' !in s
    ensures NormalizeUnit(Some(s)) == Some(s)
  {
    StripUnchanged(s);
    LowerUnchanged(s);
    assert Lower(Strip(s)) == s;
    assert FoldUnit(s) == s by {
      assert 'µ' in "µ" && '^' in "ug/m^3" && '³' in "ug/m³" && '³' in "mg/m³";
      ReplaceAllAbsent(s, "µ", "u", 'µ');
      ReplaceAllAbsent(s, "ug/m^3", "ug/m3", '^');
      ReplaceAllAbsent(s, "ug/m³", "ug/m3", '³');
      ReplaceAllAbsent(s, "mg/m³", "mg/m3", '³');
    }
  }

  /** Every canonical unit normalises to itself. */
  lemma NormalizeCanonical(p: Pollutant)
    ensures NormalizeUnit(Some(CanonicalUnit(p))) == Some(CanonicalUnit(p))
  {
    NormalizeFolded(CanonicalUnit(p));
  }

  /** The micro-sign and superscript spelling folds to the canonical one. */
  lemma NormalizeMicroGram()
    ensures NormalizeUnit(Some("µg/m³")) == Some("ug/m3")
  {
    var s := "µg/m³";
    var v := "ug/m³";
    assert Strip(s) == s by {
      assert !IsSpace(s[0]) && !IsSpace(s[|s| - 1]);
      StripUnchanged(s);
    }
    LowerUnchanged(s);
    MicroSignFolded();
    assert '^' in "ug/m^3" && '^' !in v;
    ReplaceAllAbsent(v, "ug/m^3", "ug/m3", '^');
    SuperscriptFolded();
    assert '³' in "mg/m³" && '³' !in "ug/m3";
    ReplaceAllAbsent("ug/m3", "mg/m³", "mg/m3", '³');
  }

  /** The micro sign becomes the letter u. */
  lemma MicroSignFolded()
    ensures ReplaceAll("µg/m³", "µ", "u") == "ug/m³"
  {
    var s := "µg/m³";
    assert s[..1] == "µ" && s[1..] == "g/m³";
    assert 'µ' in "µ" && 'µ' !in "g/m³";
    ReplaceAllAbsent("g/m³", "µ", "u", 'µ');
  }

  /** The superscript-three spelling becomes the plain one. */
  lemma SuperscriptFolded()
    ensures ReplaceAll("ug/m³", "ug/m³", "ug/m3") == "ug/m3"
  {
    var v := "ug/m³";
    assert v[..|v|] == v && v[|v|..] == [];
  }

  /** Upper case is folded to lower case. */
  lemma NormalizeUpperPpb()
    ensures NormalizeUnit(Some("PPB")) == Some("ppb")
  {
    var s := "PPB";
    assert Strip(s) == s by {
      assert !IsSpace(s[0]) && !IsSpace(s[|s| - 1]);
      StripUnchanged(s);
    }
    assert Lower(s) == "ppb";
    assert 'µ' in "µ" && '^' in "ug/m^3" && '³' in "ug/m³" && '³' in "mg/m³";
    ReplaceAllAbsent("ppb", "µ", "u", 'µ');
    ReplaceAllAbsent("ppb", "ug/m^3", "ug/m3", '^');
    ReplaceAllAbsent("ppb", "ug/m³", "ug/m3", '³');
    ReplaceAllAbsent("ppb", "mg/m³", "mg/m3", '³');
  }

  /** A standardised reading: a value in the pollutant's canonical unit. */
  datatype StdReading = StdReading(value: real, unit: string)

  /** The units the converter accepts for each pollutant, after normalisation. */
  function SupportedUnits(p: Pollutant): set<string> {
    if p == PM25 || p == PM10 then {"ug/m3", "mg/m3"} else {"ug/m3", "mg/m3", "ppm", "ppb"}
  }

  /** Reference meaning of a reading: its mass concentration in ug/m3, read
      through the ideal-gas relation for the gases. */
  function MassConcentration(p: Pollutant, x: real, u: string): real
    requires u in SupportedUnits(p)
  {
    if u == "ug/m3" then x
    else if u == "mg/m3" then x * 1000.0
    else if u == "ppm" then PpmToUgM3(x, MolecularWeight(p).value)
    else PpmToUgM3(x / 1000.0, MolecularWeight(p).value)
  }

  /** `convert_to_standard`: the value in the canonical unit of the pollutant's
      table, or `None` for a missing or NaN value, an unknown pollutant, or a
      unit the closed rule set does not cover. */
  function ConvertToStandard(pollutant: string, value: Option<real>, unit: Option<string>): (r: Option<StdReading>)
    ensures r.Some? <==>
      && value.Some? && PollutantOf(pollutant).Some?
      && NormalizeUnit(unit).Some?
      && NormalizeUnit(unit).value in SupportedUnits(PollutantOf(pollutant).value)
    ensures r.Some? ==> r.value.unit == CanonicalUnit(PollutantOf(pollutant).value)
    ensures value.Some? && PollutantOf(pollutant).Some?
            && NormalizeUnit(unit) == Some(CanonicalUnit(PollutantOf(pollutant).value))
            ==> r == Some(StdReading(value.value, CanonicalUnit(PollutantOf(pollutant).value)))
  {
    if value.None? then None
    else match PollutantOf(pollutant)
    case None => None
    case Some(p) =>
      var u := NormalizeUnit(unit);
      var target := CanonicalUnit(p);
      var v := value.value;
      if u == Some(target) then Some(StdReading(v, target))
      else if p == PM25 || p == PM10 then
        if u == Some("mg/m3") then Some(StdReading(v * 1000.0, target))
        else if u == Some("ug/m3") then Some(StdReading(v, target))
        else None
      else match MolecularWeight(p)
      case None => None
      case Some(mw) =>
        if target == "ppm" then
          if u == Some("ppb") then Some(StdReading(v / 1000.0, target))
          else if u == Some("ug/m3") then Some(StdReading(UgM3ToPpm(v, mw), target))
          else if u == Some("mg/m3") then Some(StdReading(UgM3ToPpm(v * 1000.0, mw), target))
          else if u == Some("ppm") then Some(StdReading(v, target))
          else None
        else if target == "ppb" then
          if u == Some("ppm") then Some(StdReading(v * 1000.0, target))
          else if u == Some("ug/m3") then Some(StdReading(UgM3ToPpm(v, mw) * 1000.0, target))
          else if u == Some("mg/m3") then Some(StdReading(UgM3ToPpm(v * 1000.0, mw) * 1000.0, target))
          else if u == Some("ppb") then Some(StdReading(v, target))
          else None
        else None
  }

  /** Conversion never changes what is measured: the converted reading and
      the original one denote the same mass concentration. */
  lemma ConvertPreservesMass(pollutant: string, value: Option<real>, unit: Option<string>)
    requires ConvertToStandard(pollutant, value, unit).Some?
    ensures var p := PollutantOf(pollutant).value;
            var s := ConvertToStandard(pollutant, value, unit).value;
            && CanonicalUnit(p) in SupportedUnits(p)
            && MassConcentration(p, s.value, s.unit) == MassConcentration(p, value.value, NormalizeUnit(unit).value)
  {
    var p := PollutantOf(pollutant).value;
    var v := value.value;
    var u := NormalizeUnit(unit).value;
    if MolecularWeight(p).Some? {
      var mw := MolecularWeight(p).value;
      UgM3PpmRoundTrip(v, mw);
      UgM3PpmRoundTrip(v * 1000.0, mw);
      assert UgM3ToPpm(v, mw) * 1000.0 / 1000.0 == UgM3ToPpm(v, mw);
      assert UgM3ToPpm(v * 1000.0, mw) * 1000.0 / 1000.0 == UgM3ToPpm(v * 1000.0, mw);
      if u == "ppb" && CanonicalUnit(p) == "ppm" {
        assert PpmToUgM3(v / 1000.0, mw) == PpmToUgM3(v / 1000.0, mw);
      }
    }
  }

  // ---------------------------------------------------------------------------
  // Sub-index
  // ---------------------------------------------------------------------------

  /** Equation 1 of the EPA method: linear interpolation inside one tier. */
  function Interpolate(b: Breakpoint, x: real): (r: real)
    requires b.bpLow < b.bpHigh
    ensures x == b.bpLow ==> r == b.iLow as real
    ensures x == b.bpHigh ==> r == b.iHigh as real
    ensures b.iLow <= b.iHigh && InTier(b, x) ==> b.iLow as real <= r <= b.iHigh as real
  {
    var slope := (b.iHigh - b.iLow) as real / (b.bpHigh - b.bpLow);
    assert slope * (b.bpHigh - b.bpLow) == (b.iHigh - b.iLow) as real;
    ScaleBounds(slope, x - b.bpLow, b.bpHigh - b.bpLow);
    slope * (x - b.bpLow) + b.iLow as real
  }

  /** Scaling by a non-negative factor keeps `0 <= d <= w` in order. */
  lemma ScaleBounds(slope: real, d: real, w: real)
    ensures slope >= 0.0 && 0.0 <= d <= w ==> 0.0 <= slope * d <= slope * w
  {
    if slope >= 0.0 && 0.0 <= d <= w {
      assert slope * w - slope * d == slope * (w - d);
    }
  }

  /** Interpolation is non-decreasing in the concentration. */
  lemma InterpolateMonotone(b: Breakpoint, x: real, y: real)
    requires b.bpLow < b.bpHigh && b.iLow <= b.iHigh && x <= y
    ensures Interpolate(b, x) <= Interpolate(b, y)
  {
    var slope := (b.iHigh - b.iLow) as real / (b.bpHigh - b.bpLow);
    assert slope >= 0.0;
    assert slope * (x - b.bpLow) <= slope * (y - b.bpLow);
  }

  /** The first-match scan: the index of the first tier whose closed interval
      holds `x`, or `None` when no tier does. */
  function FindTier(t: seq<Breakpoint>, x: real): (k: Option<nat>)
    ensures k.Some? ==> k.value < |t| && InTier(t[k.value], x)
    ensures k.Some? ==> forall j :: 0 <= j < k.value ==> !InTier(t[j], x)
    ensures k.None? ==> forall j :: 0 <= j < |t| ==> !InTier(t[j], x)
  {
    if t == [] then None
    else if InTier(t[0], x) then Some(0)
    else match FindTier(t[1..], x)
      case None => None
      case Some(k) => Some(k + 1)
  }

  /** `compute_iaqi`: the sub-index of one pollutant. A missing unit means the
      canonical unit. `None` for an unknown pollutant, a failed conversion, or
      a standardised value outside every tier. */
  function Iaqi(pollutant: string, concentration: Option<real>, unit: Option<string>): (r: Option<real>)
    ensures r.Some? ==> 0.0 <= r.value <= 500.0
    ensures r.None? <==>
      || PollutantOf(pollutant).None?
      || IaqiInput(PollutantOf(pollutant).value, concentration, unit).None?
      || FindTier(Table(PollutantOf(pollutant).value), IaqiInput(PollutantOf(pollutant).value, concentration, unit).value).None?
  {
    match PollutantOf(pollutant)
    case None => None
    case Some(p) =>
      match IaqiInput(p, concentration, unit)
      case None => None
      case Some(x) =>
        var t := Table(p);
        match FindTier(t, x)
        case None => None
        case Some(k) =>
          TableWellFormed(p);
          TierBounds(t, k);
          Some(Interpolate(t[k], x))
  }

  /** The standardised concentration the sub-index is read from: the value
      converted from `unit`, or from the canonical unit when there is none. */
  function IaqiInput(p: Pollutant, concentration: Option<real>, unit: Option<string>): Option<real>
  {
    match ConvertToStandard(Code(p), concentration, if unit.None? then Some(CanonicalUnit(p)) else unit)
    case None => None
    case Some(s) => Some(s.value)
  }

  /** Looking up a pollutant's own code finds it. */
  lemma CodeLookup(p: Pollutant)
    ensures PollutantOf(Code(p)) == Some(p)
  {
  }

  /** With no unit, the sub-index of a value is read directly off the table. */
  lemma IaqiCanonical(p: Pollutant, x: real)
    ensures ProperTiers(Table(p))
    ensures Iaqi(Code(p), Some(x), None) ==
      match FindTier(Table(p), x)
      case None => None
      case Some(k) => Some(Interpolate(Table(p)[k], x))
  {
    TableWellFormed(p);
    CodeLookup(p);
    NormalizeCanonical(p);
    assert ConvertToStandard(Code(p), Some(x), Some(CanonicalUnit(p))) == Some(StdReading(x, CanonicalUnit(p)));
  }

  /** The tier containing `x` is the one the scan finds. */
  lemma FindTierExact(t: seq<Breakpoint>, x: real, i: nat)
    requires WellFormed(t) && i < |t| && InTier(t[i], x)
    ensures FindTier(t, x) == Some(i)
  {
    var k := FindTier(t, x);
    AtMostOneTier(t, x, k.value, i);
  }

  /** Tier endpoints map to index endpoints: the sub-index at the lower
      concentration of a tier is its lower index, at the upper one its
      upper index. */
  lemma IaqiAtEndpoints(p: Pollutant, i: nat)
    requires i < |Table(p)|
    ensures Iaqi(Code(p), Some(Table(p)[i].bpLow), None) == Some(Table(p)[i].iLow as real)
    ensures Iaqi(Code(p), Some(Table(p)[i].bpHigh), None) == Some(Table(p)[i].iHigh as real)
  {
    var t := Table(p);
    TableWellFormed(p);
    IaqiCanonical(p, t[i].bpLow);
    IaqiCanonical(p, t[i].bpHigh);
    FindTierExact(t, t[i].bpLow, i);
    FindTierExact(t, t[i].bpHigh, i);
  }

  /** Within a table the sub-index is non-decreasing in the concentration,
      within a tier and across tiers. */
  lemma IaqiMonotone(p: Pollutant, x: real, y: real)
    requires x <= y
    requires Iaqi(Code(p), Some(x), None).Some? && Iaqi(Code(p), Some(y), None).Some?
    ensures Iaqi(Code(p), Some(x), None).value <= Iaqi(Code(p), Some(y), None).value
  {
    var t := Table(p);
    TableWellFormed(p);
    IaqiCanonical(p, x);
    IaqiCanonical(p, y);
    var i := FindTier(t, x).value;
    var j := FindTier(t, y).value;
    if i == j {
      InterpolateMonotone(t[i], x, y);
    } else if i < j {
      TiersAscending(t, i, j);
    } else {
      TiersAscending(t, j, i);
      assert false;
    }
  }

  /** Below zero and above the top of the table the sub-index is undefined:
      there is no clamping and no extrapolation. */
  lemma IaqiUndefinedOutside(p: Pollutant, x: real)
    requires x < 0.0 || x > Table(p)[|Table(p)| - 1].bpHigh
    ensures Iaqi(Code(p), Some(x), None).None?
  {
    var t := Table(p);
    TableWellFormed(p);
    IaqiCanonical(p, x);
    if FindTier(t, x).Some? {
      TierBounds(t, FindTier(t, x).value);
    }
  }

  /** Strictly between two consecutive tiers of a well-formed table no tier
      holds the value. */
  lemma NoTierInGap(t: seq<Breakpoint>, i: nat, x: real)
    requires WellFormed(t) && i + 1 < |t| && t[i].bpHigh < x < t[i + 1].bpLow
    ensures FindTier(t, x).None?
  {
    forall j | 0 <= j < |t| ensures !InTier(t[j], x) {
      if j < i {
        TiersAscending(t, j, i);
      } else if j > i + 1 {
        TiersAscending(t, i + 1, j);
      }
    }
  }

  /** Strictly between two consecutive tiers the sub-index is undefined. */
  lemma IaqiUndefinedInGap(p: Pollutant, i: nat, x: real)
    requires i + 1 < |Table(p)| && Table(p)[i].bpHigh < x < Table(p)[i + 1].bpLow
    ensures Iaqi(Code(p), Some(x), None).None?
  {
    TableWellFormed(p);
    NoTierInGap(Table(p), i, x);
    IaqiCanonical(p, x);
  }

  /** PM2.5 at the boundary of the first two tiers. */
  lemma IaqiPm25Boundaries()
    ensures Iaqi("pm25", Some(35.4), None) == Some(100.0)
    ensures Iaqi("pm25", Some(12.1), None) == Some(51.0)
  {
    IaqiAtEndpoints(PM25, 1);
  }

  /** PM2.5 in the gap after the first tier, above the table and below zero. */
  lemma IaqiPm25Undefined()
    ensures Iaqi("pm25", Some(12.05), None) == None
    ensures Iaqi("pm25", Some(500.5), None) == None
    ensures Iaqi("pm25", Some(-1.0), None) == None
  {
    IaqiUndefinedInGap(PM25, 0, 12.05);
    IaqiUndefinedOutside(PM25, 500.5);
    IaqiUndefinedOutside(PM25, -1.0);
  }

  /** 70 ppb of ozone is 0.070 ppm, the top of the second tier: index 100. */
  lemma IaqiOzonePpb()
    ensures Iaqi("o3", Some(70.0), Some("ppb")) == Some(100.0)
  {
    NormalizeFolded("ppb");
    CodeLookup(O3);
    assert ConvertToStandard("o3", Some(70.0), Some("ppb")) == Some(StdReading(0.070, "ppm"));
    TableWellFormed(O3);
    FindTierExact(Table(O3), 0.070, 1);
  }

  /** A name outside the six codes has no sub-index. */
  lemma IaqiUnknownPollutant(concentration: Option<real>, unit: Option<string>)
    ensures Iaqi("ozone", concentration, unit) == None
    ensures Iaqi("PM2.5", concentration, unit) == None
  {
  }

  // ---------------------------------------------------------------------------
  // Aggregation and category
  // ---------------------------------------------------------------------------

  /** The sub-index of pollutant `p` in a row: `None` when the row has no
      value for it, otherwise `Iaqi` of its value and unit. */
  function SubIndexOf(p: Pollutant, row: map<string, Option<real>>, units: map<string, Option<string>>): Option<real>
  {
    if Code(p) !in row then None else Iaqi(Code(p), row[Code(p)], Get(units, Code(p)))
  }

  /** The defined sub-indices of a row, in the order of `ps`: pollutants absent
      from the row are skipped, and so are those whose sub-index is `None`. */
  function SubIndices(ps: seq<Pollutant>, row: map<string, Option<real>>, units: map<string, Option<string>>): seq<real>
  {
    if ps == [] then []
    else
      var rest := SubIndices(ps[..|ps| - 1], row, units);
      match SubIndexOf(ps[|ps| - 1], row, units)
      case None => rest
      case Some(v) => rest + [v]
  }

  /** A value is a defined sub-index of the row exactly when some pollutant
      of `ps` has it as its sub-index. */
  lemma {:induction false} SubIndicesMembers(ps: seq<Pollutant>, row: map<string, Option<real>>, units: map<string, Option<string>>, v: real)
    ensures v in SubIndices(ps, row, units) <==> exists p :: p in ps && SubIndexOf(p, row, units) == Some(v)
  {
    if ps != [] {
      var init, last := ps[..|ps| - 1], ps[|ps| - 1];
      SubIndicesMembers(init, row, units, v);
      assert ps == init + [last];
      if v in SubIndices(ps, row, units) {
        if v !in SubIndices(init, row, units) {
          assert SubIndexOf(last, row, units) == Some(v);
          assert last in ps;
        } else {
          var p :| p in init && SubIndexOf(p, row, units) == Some(v);
          assert p in ps;
        }
      } else {
        forall p | p in ps
          ensures SubIndexOf(p, row, units) != Some(v)
        {
          if p != last {
            assert p in init;
          }
        }
      }
    }
  }

  /** `aqi` is the AQI of the sub-indices `subs`: undefined when there are
      none, otherwise one of them and at least every other. */
  ghost predicate IsAqiOf(aqi: Option<real>, subs: seq<real>) {
    && (aqi.None? <==> subs == [])
    && (aqi.Some? ==> aqi.value in subs && forall x :: x in subs ==> x <= aqi.value)
  }

  /** The AQI of a list of sub-indices is determined by it. */
  lemma IsAqiOfUnique(a: Option<real>, b: Option<real>, subs: seq<real>)
    requires IsAqiOf(a, subs) && IsAqiOf(b, subs)
    ensures a == b
  {
    if a.Some? {
      assert a.value <= b.value && b.value <= a.value;
    }
  }

  /** The AQI dominates the sub-index of every pollutant of the row. */
  lemma AqiDominates(row: map<string, Option<real>>, units: map<string, Option<string>>, aqi: Option<real>, p: Pollutant)
    requires IsAqiOf(aqi, SubIndices(Keys, row, units))
    requires SubIndexOf(p, row, units).Some?
    ensures aqi.Some? && SubIndexOf(p, row, units).value <= aqi.value
  {
    KeysAreAllPollutants();
    SubIndicesMembers(Keys, row, units, SubIndexOf(p, row, units).value);
  }

  /** The AQI, when defined, is the sub-index of some pollutant of the row. */
  lemma AqiIsSomeSubIndex(row: map<string, Option<real>>, units: map<string, Option<string>>, aqi: Option<real>)
    requires IsAqiOf(aqi, SubIndices(Keys, row, units)) && aqi.Some?
    ensures exists p :: SubIndexOf(p, row, units) == aqi
  {
    SubIndicesMembers(Keys, row, units, aqi.value);
  }

  /** One more pollutant adds its sub-index to the list when it has one. */
  lemma SubIndicesStep(ps: seq<Pollutant>, k: nat, row: map<string, Option<real>>, units: map<string, Option<string>>)
    requires k < |ps|
    ensures SubIndices(ps[..k + 1], row, units) ==
      if Code(ps[k]) in row && Iaqi(Code(ps[k]), row[Code(ps[k])], Get(units, Code(ps[k]))).Some?
      then SubIndices(ps[..k], row, units) + [Iaqi(Code(ps[k]), row[Code(ps[k])], Get(units, Code(ps[k]))).value]
      else SubIndices(ps[..k], row, units)
  {
    assert ps[..k + 1][..k] == ps[..k];
  }

  /** `np.max` of a non-empty list. */
  function Max(s: seq<real>): (m: real)
    requires s != []
    ensures m in s && forall x :: x in s ==> x <= m
  {
    if |s| == 1 then s[0]
    else
      var m := Max(s[1..]);
      assert forall x :: x in s ==> x == s[0] || x in s[1..];
      if s[0] >= m then s[0] else m
  }

  /** `compute_aqi_row`: collects the defined sub-indices of the pollutants
      present in the row, in table order, and returns their maximum. */
  method ComputeAqiRow(row: map<string, Option<real>>, units: map<string, Option<string>>) returns (aqi: Option<real>)
    ensures IsAqiOf(aqi, SubIndices(Keys, row, units))
  {
    var iaqis: seq<real> := [];
    for k := 0 to |Keys|
      invariant iaqis == SubIndices(Keys[..k], row, units)
    {
      SubIndicesStep(Keys, k, row, units);
      var p := Code(Keys[k]);
      if p !in row {
        continue;
      }
      var unit := Get(units, p);
      var iaqi := Iaqi(p, row[p], unit);
      if iaqi.Some? {
        iaqis := iaqis + [iaqi.value];
      }
    }
    assert Keys[..|Keys|] == Keys;
    if iaqis == [] {
      return None;
    }
    aqi := Some(Max(iaqis));
  }

  datatype Category = Good | Moderate | UnhealthyForSensitiveGroups | Unhealthy | VeryUnhealthy | Hazardous

  /** The category names as the index reports them. */
  function Name(c: Category): string {
    match c
    case Good => "Good"
    case Moderate => "Moderate"
    case UnhealthyForSensitiveGroups => "Unhealthy for Sensitive Groups"
    case Unhealthy => "Unhealthy"
    case VeryUnhealthy => "Very Unhealthy"
    case Hazardous => "Hazardous"
  }

  /** Severity order of the categories. */
  function Rank(c: Category): nat {
    match c
    case Good => 0
    case Moderate => 1
    case UnhealthyForSensitiveGroups => 2
    case Unhealthy => 3
    case VeryUnhealthy => 4
    case Hazardous => 5
  }

  /** Upper cut-off of each category but the last. */
  function UpperCutoff(c: Category): real
    requires c != Hazardous
  {
    match c
    case Good => 50.0
    case Moderate => 100.0
    case UnhealthyForSensitiveGroups => 150.0
    case Unhealthy => 200.0
    case VeryUnhealthy => 300.0
  }

  /** `aqi_category`: the step function with cut-offs 50, 100, 150, 200 and
      300; everything above 300, including above 500, is hazardous. */
  function AqiCategory(aqi: Option<real>): (r: Option<Category>)
    ensures r.None? <==> aqi.None?
  {
    match aqi
    case None => None
    case Some(a) =>
      if a <= 50.0 then Some(Good)
      else if a <= 100.0 then Some(Moderate)
      else if a <= 150.0 then Some(UnhealthyForSensitiveGroups)
      else if a <= 200.0 then Some(Unhealthy)
      else if a <= 300.0 then Some(VeryUnhealthy)
      else if a <= 500.0 then Some(Hazardous)
      else Some(Hazardous)
  }

  /** The category is a monotone step function: a higher AQI never gets a
      milder category. */
  lemma CategoryMonotone(a: real, b: real)
    requires a <= b
    ensures Rank(AqiCategory(Some(a)).value) <= Rank(AqiCategory(Some(b)).value)
  {
  }

  /** Each category is exactly the values above the previous cut-off and up
      to its own; "Hazardous" is everything above 300. */
  lemma CategoryCutoffs(a: real, c: Category)
    ensures AqiCategory(Some(a)) == Some(c) <==>
      && (c != Good ==> a > (match c case Moderate => 50.0 case UnhealthyForSensitiveGroups => 100.0
                              case Unhealthy => 150.0 case VeryUnhealthy => 200.0 case _ => 300.0))
      && (c != Hazardous ==> a <= UpperCutoff(c))
  {
  }

  /** A row of a wide frame: pollutant columns with a present value. */
  type Cells = map<string, real>

  /** `row.get(p)` for each requested column: a missing column or an empty
      cell is `None`. */
  function RowValues(cells: Cells, cols: seq<string>): (r: map<string, Option<real>>)
    ensures r.Keys == set c | c in cols
    ensures forall c :: c in r ==> (r[c].Some? <==> c in cells)
  {
    map c | c in cols :: if c in cells then Some(cells[c]) else None
  }

  datatype AqiRow = AqiRow(cells: Cells, aqi: Option<real>, category: Option<Category>)

  /** `compute_aqi_dataframe`: a copy of every row with its AQI and category
      attached; the default columns are the six pollutants. */
  method ComputeAqiDataframe(rows: seq<Cells>, pollutantCols: Option<seq<string>>) returns (out: seq<AqiRow>)
    ensures var cols := if pollutantCols.None? then seq(|Keys|, i requires 0 <= i < |Keys| => Code(Keys[i])) else pollutantCols.value;
      && |out| == |rows|
      && forall i :: 0 <= i < |rows| ==>
           && out[i].cells == rows[i]
           && IsAqiOf(out[i].aqi, SubIndices(Keys, RowValues(rows[i], cols), map[]))
           && out[i].category == AqiCategory(out[i].aqi)
  {
    var cols := if pollutantCols.None? then seq(|Keys|, i requires 0 <= i < |Keys| => Code(Keys[i])) else pollutantCols.value;
    var aqiValues: seq<Option<real>> := [];
    for i := 0 to |rows|
      invariant |aqiValues| == i
      invariant forall j :: 0 <= j < i ==> IsAqiOf(aqiValues[j], SubIndices(Keys, RowValues(rows[j], cols), map[]))
    {
      var aqi := ComputeAqiRow(RowValues(rows[i], cols), map[]);
      aqiValues := aqiValues + [aqi];
    }
    out := seq(|rows|, i requires 0 <= i < |rows| => AqiRow(rows[i], aqiValues[i], AqiCategory(aqiValues[i])));
  }
}
