/** The cleaning and aggregation pipeline for long-format OpenAQ exports:
    column-name normalisation and renaming, the coordinate scanner, unit
    normalisation, row cleaning with duplicate removal, and the daily
    (or other bucket) mean per pollutant pivoted into a wide table.
    A frame is a list of column names and rows of cells aligned with them. */
module Preprocessing {
  import opened Wrappers
  import opened Strings
  import Aqi

  // ---------------------------------------------------------------------------
  // Column names
  // ---------------------------------------------------------------------------

  /** A space or a hyphen becomes an underscore; other characters stay. */
  function Underscored(c: char): char {
    if c == ' ' || c == '-' then '_' else c
  }

  /** `_normalize_col_name`: trimmed, lower-cased, with every space and
      hyphen turned into an underscore (the two `replace` calls are the
      character map `Underscored`, as `NormalizeColNameIsReplace` shows). */
  function NormalizeColName(name: string): (r: string)
    ensures |r| == |Strip(name)|
    ensures forall i :: 0 <= i < |r| ==> r[i] != ' ' && r[i] != '-' && !IsUpper(r[i])
  {
    var t := Lower(Strip(name));
    seq(|t|, i requires 0 <= i < |t| => Underscored(t[i]))
  }

  /** The character map is exactly the source's two `replace` calls. */
  lemma NormalizeColNameIsReplace(name: string)
    ensures NormalizeColName(name) == ReplaceAll(ReplaceAll(Lower(Strip(name)), " ", "_"), "-", "_")
  {
    var t := Lower(Strip(name));
    ReplaceChar(t, ' ', '_');
    var t1 := ReplaceAll(t, " ", "_");
    ReplaceChar(t1, '-', '_');
  }

  /** A name with no space or hyphen is its own character map. */
  lemma UnderscoredFixed(r: string)
    requires forall i :: 0 <= i < |r| ==> r[i] != ' ' && r[i] != '-'
    ensures seq(|r|, i requires 0 <= i < |r| => Underscored(r[i])) == r
  {
  }

  /** Each character of a normalised name comes from the stripped name. */
  lemma NormalizeColNameAt(name: string, i: int)
    requires 0 <= i < |Strip(name)|
    ensures NormalizeColName(name)[i] == Underscored(LowerChar(Strip(name)[i]))
  {
  }

  /** Folding a character that is not white space gives no white space. */
  lemma FoldedCharNotSpace(c: char)
    requires !IsSpace(c)
    ensures !IsSpace(Underscored(LowerChar(c)))
  {
  }

  /** Text without surrounding space or upper case is left alone by
      `strip()` and `lower()`. */
  lemma FoldedFixed(r: string)
    requires r == [] || (!IsSpace(r[0]) && !IsSpace(r[|r| - 1]))
    requires forall i :: 0 <= i < |r| ==> !IsUpper(r[i])
    ensures Strip(r) == r && Lower(r) == r
  {
    StripUnchanged(r);
    LowerUnchanged(r);
  }

  /** A normalised name has no surrounding space and no upper case. */
  lemma NormalizedIsFolded(name: string)
    ensures var r := NormalizeColName(name);
      Strip(r) == r && Lower(r) == r
  {
    var s := Strip(name);
    var r := NormalizeColName(name);
    if r != [] {
      NormalizeColNameAt(name, 0);
      NormalizeColNameAt(name, |r| - 1);
      FoldedCharNotSpace(s[0]);
      FoldedCharNotSpace(s[|r| - 1]);
    }
    FoldedFixed(r);
  }

  /** A folded name with no space or hyphen is its own normalisation. */
  lemma NormalizeFixed(r: string)
    requires Strip(r) == r && Lower(r) == r
    requires forall i :: 0 <= i < |r| ==> r[i] != ' ' && r[i] != '-'
    ensures NormalizeColName(r) == r
  {
    UnderscoredFixed(r);
  }

  /** Normalising a normalised name changes nothing. */
  lemma NormalizeColNameIdempotent(name: string)
    ensures NormalizeColName(NormalizeColName(name)) == NormalizeColName(name)
  {
    NormalizedIsFolded(name);
    NormalizeFixed(NormalizeColName(name));
  }

  /** The canonical name a normalised column name is renamed to, if any. */
  function Alias(norm: string): (r: Option<string>)
    ensures r.Some? ==> r.value in {"country", "city", "location", "coordinates", "pollutant", "value",
                                    "unit", "source_name", "last_updated"}
  {
    if norm in {"country", "city", "location", "coordinates", "pollutant", "value"} then Some(norm)
    else if norm == "unit" then Some("unit")
    else if norm in {"source_name", "source"} then Some("source_name")
    else if norm in {"last_updated", "last_updated_utc", "datetime"} then Some("last_updated")
    else None
  }

  /** The dictionary `{key(c): c for c in columns}`: a later column with
      the same key overwrites an earlier one. */
  function KeyedBy(columns: seq<string>, key: string -> string): map<string, string>
  {
    if columns == [] then map[]
    else
      var last := columns[|columns| - 1];
      KeyedBy(columns[..|columns| - 1], key)[key(last) := last]
  }

  /** The dictionary maps each key to the LAST column having it. */
  lemma {:induction false} KeyedByLast(columns: seq<string>, key: string -> string, n: string)
    ensures n in KeyedBy(columns, key) <==> exists j :: 0 <= j < |columns| && key(columns[j]) == n
    ensures n in KeyedBy(columns, key) ==>
      && key(KeyedBy(columns, key)[n]) == n
      && exists j :: 0 <= j < |columns| && columns[j] == KeyedBy(columns, key)[n]
                     && forall l :: j < l < |columns| ==> key(columns[l]) != n
  {
    if columns != [] {
      var init, last := columns[..|columns| - 1], columns[|columns| - 1];
      KeyedByLast(init, key, n);
      assert forall j :: 0 <= j < |init| ==> init[j] == columns[j];
      if key(last) == n {
        assert columns[|columns| - 1] == KeyedBy(columns, key)[n];
      } else if n in KeyedBy(init, key) {
        var j :| 0 <= j < |init| && init[j] == KeyedBy(init, key)[n]
                 && forall l :: j < l < |init| ==> key(init[l]) != n;
        assert columns[j] == KeyedBy(columns, key)[n];
      }
    }
  }

  /** The name `df.rename` gives column `c` when names are normalised by
      `key`: its alias when `c` is the column the dictionary kept for its
      normalised name and that name is recognised; otherwise `c` itself,
      un-normalised. */
  function RenamedColumn(columns: seq<string>, key: string -> string, c: string): string
  {
    var n := key(c);
    var d := KeyedBy(columns, key);
    if n in d && d[n] == c && Alias(n).Some? then Alias(n).value else c
  }

  /** The body of `standardize_columns`, for any normalisation `key`: builds
      the normalised-name dictionary, then the rename dictionary in a loop
      over its items, and applies it to the column list. */
  method RenameColumns(columns: seq<string>, key: string -> string) returns (renamed: seq<string>)
    ensures |renamed| == |columns|
    ensures forall i :: 0 <= i < |columns| ==> renamed[i] == RenamedColumn(columns, key, columns[i])
  {
    var normalized: map<string, string> := map[];
    for i := 0 to |columns|
      invariant normalized == KeyedBy(columns[..i], key)
    {
      assert columns[..i + 1][..i] == columns[..i];
      normalized := normalized[key(columns[i]) := columns[i]];
    }
    assert columns[..|columns|] == columns;
    forall n | n in normalized
      ensures key(normalized[n]) == n
    {
      KeyedByLast(columns, key, n);
    }
    var renameMap: map<string, string> := map[];
    var pending := normalized.Keys;
    while pending != {}
      invariant pending <= normalized.Keys
      invariant forall c :: c in renameMap <==>
        key(c) in normalized && key(c) !in pending && normalized[key(c)] == c && Alias(key(c)).Some?
      invariant forall c :: c in renameMap ==> renameMap[c] == Alias(key(c)).value
      decreases pending
    {
      var norm :| norm in pending;
      var original := normalized[norm];
      var alias := Alias(norm);
      if alias.Some? {
        renameMap := renameMap[original := alias.value];
      }
      pending := pending - {norm};
    }
    renamed := seq(|columns|, i requires 0 <= i < |columns| =>
      if columns[i] in renameMap then renameMap[columns[i]] else columns[i]);
  }

  /** `standardize_columns`: the column list after renaming; the rows are
      untouched, and the input frame is a value, so it is not modified. */
  method StandardizeColumns(columns: seq<string>) returns (renamed: seq<string>)
    ensures |renamed| == |columns|
    ensures forall i :: 0 <= i < |columns| ==> renamed[i] == RenamedColumn(columns, NormalizeColName, columns[i])
  {
    renamed := RenameColumns(columns, NormalizeColName);
  }

  /** A recognised column that is the last one with its normalised name is
      renamed to its alias. */
  lemma RenameRecognised(columns: seq<string>, key: string -> string, i: nat)
    requires i < |columns| && Alias(key(columns[i])).Some?
    requires forall l :: i < l < |columns| ==> key(columns[l]) != key(columns[i])
    ensures RenamedColumn(columns, key, columns[i]) == Alias(key(columns[i])).value
  {
    var n := key(columns[i]);
    KeyedByLast(columns, key, n);
    var j :| 0 <= j < |columns| && columns[j] == KeyedBy(columns, key)[n]
             && forall l :: j < l < |columns| ==> key(columns[l]) != n;
    assert key(columns[j]) == n;
  }

  /** An earlier column whose normalised name a later, differently written
      column shares is not renamed: the dictionary kept the later one. */
  lemma RenameShadowed(columns: seq<string>, key: string -> string, i: nat, l: nat)
    requires i < l < |columns| && key(columns[l]) == key(columns[i])
    requires forall m :: l < m < |columns| ==> key(columns[m]) != key(columns[i])
    requires columns[l] != columns[i]
    ensures RenamedColumn(columns, key, columns[i]) == columns[i]
  {
    var n := key(columns[i]);
    KeyedByLast(columns, key, n);
    var j :| 0 <= j < |columns| && columns[j] == KeyedBy(columns, key)[n]
             && forall m :: j < m < |columns| ==> key(columns[m]) != n;
    assert key(columns[j]) == n;
  }

  /** A column whose normalised name is not recognised keeps its original
      name, even when that name is not normalised. */
  lemma RenameUnrecognised(columns: seq<string>, key: string -> string, c: string)
    requires Alias(key(c)).None?
    ensures RenamedColumn(columns, key, c) == c
  {
  }

  /** The aliases of the source-name and timestamp columns. */
  lemma AliasExamples()
    ensures Alias("source") == Some("source_name")
    ensures Alias("last_updated_utc") == Some("last_updated")
    ensures Alias("datetime") == Some("last_updated")
    ensures Alias("timestamp") == None
  {
  }

  /** "Last Updated" normalises to "last_updated". */
  lemma NormalizeLastUpdated()
    ensures NormalizeColName("Last Updated") == "last_updated"
  {
    LowerLastUpdated();
    var t := Lower(Strip("Last Updated"));
    var q := seq(|t|, i requires 0 <= i < |t| => Underscored(t[i]));
    assert forall i :: 0 <= i < |q| ==> q[i] == "last_updated"[i];
  }

  lemma LowerLastUpdated()
    ensures Lower(Strip("Last Updated")) == "last updated"
  {
    StripLastUpdated();
    assert Lower("Last Updated") == "last updated";
  }

  lemma StripLastUpdated()
    ensures Strip("Last Updated") == "Last Updated"
  {
    var l := "Last Updated";
    assert !IsSpace(l[0]) && !IsSpace(l[|l| - 1]);
    StripUnchanged(l);
  }

  // ---------------------------------------------------------------------------
  // Coordinates
  // ---------------------------------------------------------------------------

  /** A coordinates cell: missing (None or NaN), a list or tuple of numbers,
      or text. */
  datatype CoordCell = NoCoords | Items(xs: seq<real>) | CoordText(text: string)

  /** The number of consecutive digits of `s` starting at `i`. */
  function DigitRun(s: string, i: nat): (n: nat)
    requires i <= |s|
    ensures i + n <= |s|
    decreases |s| - i
  {
    if i < |s| && IsDigit(s[i]) then 1 + DigitRun(s, i + 1) else 0
  }

  /** The run is all digits and stops at the end or at a non-digit. */
  lemma {:induction false} DigitRunDigits(s: string, i: nat)
    requires i <= |s|
    ensures AllDigits(s[i..i + DigitRun(s, i)])
    ensures i + DigitRun(s, i) == |s| || !IsDigit(s[i + DigitRun(s, i)])
    decreases |s| - i
  {
    if i < |s| && IsDigit(s[i]) {
      DigitRunDigits(s, i + 1);
      assert s[i..i + DigitRun(s, i)] == [s[i]] + s[i + 1..i + 1 + DigitRun(s, i + 1)];
    }
  }

  /** A numeral as the pattern `-?\d+\.\d+|-?\d+` describes it: an optional
      minus sign, digits, and optionally a point followed by digits. */
  predicate IsNumeral(t: string) {
    var u := if |t| > 0 && t[0] == '-' then t[1..] else t;
    var d := DigitRun(u, 0);
    d > 0 && (d == |u| || (u[d] == '.' && d + 1 < |u| && DigitRun(u, d + 1) == |u| - d - 1))
  }

  /** The length of the match of `-?\d+\.\d+|-?\d+` at the start of `s`:
      the decimal alternative is tried first, the integer one second. */
  function MatchAt(s: string): (n: Option<nat>)
    ensures n.Some? ==> 0 < n.value <= |s|
  {
    var j := if |s| > 0 && s[0] == '-' then 1 else 0;
    var d := DigitRun(s, j);
    if d == 0 then None
    else if j + d < |s| && s[j + d] == '.' && DigitRun(s, j + d + 1) > 0 then Some(j + d + 1 + DigitRun(s, j + d + 1))
    else Some(j + d)
  }

  /** Counting digits in a prefix stops at the end of the prefix. */
  lemma {:induction false} DigitRunPrefix(s: string, m: nat, k: nat)
    requires k <= m <= |s|
    ensures DigitRun(s[..m], k) == if DigitRun(s, k) < m - k then DigitRun(s, k) else m - k
    decreases m - k
  {
    if k < m {
      DigitRunPrefix(s, m, k + 1);
      assert s[..m][k] == s[k];
    }
  }

  /** Counting digits after dropping the first character. */
  lemma {:induction false} DigitRunTail(s: string, k: nat)
    requires 1 <= |s| && k <= |s| - 1
    ensures DigitRun(s[1..], k) == DigitRun(s, k + 1)
    decreases |s| - k
  {
    if k < |s| - 1 {
      DigitRunTail(s, k + 1);
      assert s[1..][k] == s[k + 1];
    }
  }

  /** The text after the optional minus sign, and its digit runs. */
  lemma UnsignedPart(s: string, j: nat, k: nat)
    requires j == (if |s| > 0 && s[0] == '-' then 1 else 0)
    requires j + k <= |s|
    ensures DigitRun(s[j..], k) == DigitRun(s, j + k)
  {
    if j == 1 {
      DigitRunTail(s, k);
    } else {
      assert s[j..] == s;
    }
  }

  /** The match at the start of `s`, when there is one, is a numeral. */
  lemma MatchAtIsNumeral(s: string)
    requires MatchAt(s).Some?
    ensures IsNumeral(s[..MatchAt(s).value])
  {
    var n := MatchAt(s).value;
    var j := if |s| > 0 && s[0] == '-' then 1 else 0;
    var d := DigitRun(s, j);
    var p := s[..n];
    assert p[0] == s[0];
    var up := if |p| > 0 && p[0] == '-' then p[1..] else p;
    var us := s[j..];
    assert up == us[..n - j];
    UnsignedPart(s, j, 0);
    DigitRunPrefix(us, n - j, 0);
    if n == j + d {
      assert |up| == d && DigitRun(up, 0) == d;
    } else {
      var e := DigitRun(s, j + d + 1);
      assert n == j + d + 1 + e && e > 0;
      assert DigitRun(up, 0) == d;
      UnsignedPart(s, j, d + 1);
      DigitRunPrefix(us, n - j, d + 1);
      assert up[d] == s[j + d] == '.';
      assert DigitRun(up, d + 1) == e == |up| - d - 1;
    }
  }

  /** No numeral prefix of `s` is longer than the match at its start, and
      when there is no match no prefix is a numeral: the regular
      expression's preference for the decimal alternative yields the
      longest numeral. */
  lemma MatchAtMaximal(s: string, m: nat)
    requires 0 < m <= |s| && IsNumeral(s[..m])
    ensures MatchAt(s).Some? && m <= MatchAt(s).value
  {
    var j := if |s| > 0 && s[0] == '-' then 1 else 0;
    var d := DigitRun(s, j);
    var p := s[..m];
    var up := if |p| > 0 && p[0] == '-' then p[1..] else p;
    assert up == s[j..][..m - j];
    UnsignedPart(s, j, 0);
    DigitRunPrefix(s[j..], m - j, 0);
    var dp := DigitRun(up, 0);
    assert dp == if d < m - j then d else m - j;
    if dp < |up| {
      assert up[dp] == '.';
      assert dp == d && s[j + d] == '.';
      UnsignedPart(s, j, d + 1);
      DigitRunPrefix(s[j..], m - j, d + 1);
      assert DigitRun(s, j + d + 1) >= m - j - d - 1;
    }
  }

  /** `re.findall(r"-?\d+\.\d+|-?\d+", s)`: scanning left to right, a match
      is taken where one starts and scanning resumes after it; elsewhere the
      scanner moves on by one character. */
  function Tokens(s: string): seq<string>
    decreases |s|
  {
    if s == [] then []
    else match MatchAt(s)
      case None => Tokens(s[1..])
      case Some(n) => [s[..n]] + Tokens(s[n..])
  }

  /** Every token the scanner returns is a numeral. */
  lemma {:induction false} TokensAreNumerals(s: string)
    ensures forall t :: t in Tokens(s) ==> IsNumeral(t)
    decreases |s|
  {
    if s != [] {
      match MatchAt(s)
      case None => TokensAreNumerals(s[1..]);
      case Some(n) =>
        MatchAtIsNumeral(s);
        TokensAreNumerals(s[n..]);
    }
  }

  function Pow10(n: nat): (r: nat)
    ensures r > 0
  {
    if n == 0 then 1 else 10 * Pow10(n - 1)
  }

  /** The integer part of a numeral is digits, and so is its fraction part
      when it has one. */
  lemma NumeralParts(t: string)
    requires IsNumeral(t)
    ensures var u := if |t| > 0 && t[0] == '-' then t[1..] else t;
      var d := DigitRun(u, 0);
      && AllDigits(u[..d])
      && (d < |u| ==> d + 1 < |u| && AllDigits(u[d + 1..]))
  {
    var u := if |t| > 0 && t[0] == '-' then t[1..] else t;
    var d := DigitRun(u, 0);
    DigitRunDigits(u, 0);
    assert u[..d] == u[0..0 + d];
    assert d > 0 && (d == |u| || (u[d] == '.' && d + 1 < |u| && DigitRun(u, d + 1) == |u| - d - 1));
    if d < |u| {
      var e := DigitRun(u, d + 1);
      assert d + 1 + e == |u|;
      DigitRunDigits(u, d + 1);
      assert u[d + 1..] == u[d + 1..d + 1 + e];
    }
  }

  /** `float(t)` of a numeral: the integer part plus the fraction digits
      over the matching power of ten, negated under a minus sign. */
  function NumeralValue(t: string): real
    requires IsNumeral(t)
  {
    var neg := |t| > 0 && t[0] == '-';
    var u := if neg then t[1..] else t;
    var d := DigitRun(u, 0);
    NumeralParts(t);
    var whole := DigitsValue(u[..d]) as real;
    var frac := if d == |u| then 0.0 else DigitsValue(u[d + 1..]) as real / Pow10(|u| - d - 1) as real;
    if neg then -(whole + frac) else whole + frac
  }

  /** `parse_coordinates`: the first two numbers of a coordinates cell as
      (latitude, longitude), or (None, None). */
  function ParseCoordinates(cell: CoordCell): (r: (Option<real>, Option<real>))
    ensures r.0.Some? <==> r.1.Some?
    ensures cell.NoCoords? ==> r == (None, None)
    ensures cell.Items? ==> (r.0.Some? <==> |cell.xs| >= 2)
    ensures cell.Items? && |cell.xs| >= 2 ==> r == (Some(cell.xs[0]), Some(cell.xs[1]))
    ensures cell.CoordText? ==> (r.0.Some? <==> |Tokens(cell.text)| >= 2)
    ensures cell.CoordText? && |Tokens(cell.text)| >= 2 ==>
      && IsNumeral(Tokens(cell.text)[0]) && IsNumeral(Tokens(cell.text)[1])
      && r == (Some(NumeralValue(Tokens(cell.text)[0])), Some(NumeralValue(Tokens(cell.text)[1])))
  {
    match cell
    case NoCoords => (None, None)
    case Items(xs) => if |xs| >= 2 then (Some(xs[0]), Some(xs[1])) else (None, None)
    case CoordText(text) =>
      var numbers := Tokens(text);
      if |numbers| >= 2 then
        TokensAreNumerals(text);
        (Some(NumeralValue(numbers[0])), Some(NumeralValue(numbers[1])))
      else (None, None)
  }

  /** The scanner skips the brackets, the comma and the space. */
  lemma TokensExample()
    ensures Tokens("[1.5, -2]") == ["1.5", "-2"]
  {
    var s := "[1.5, -2]";
    assert MatchAt(s).None?;
    assert s[1..] == "1.5, -2]";
    assert DigitRun("1.5, -2]", 0) == 1;
    assert DigitRun("1.5, -2]", 2) == 1;
    assert MatchAt("1.5, -2]") == Some(3);
    assert "1.5, -2]"[3..] == ", -2]";
    assert MatchAt(", -2]").None?;
    assert ", -2]"[1..] == " -2]";
    assert MatchAt(" -2]").None?;
    assert " -2]"[1..] == "-2]";
    assert DigitRun("-2]", 1) == 1;
    assert MatchAt("-2]") == Some(2);
    assert "-2]"[2..] == "]";
    assert MatchAt("]").None?;
    assert "]"[1..] == [];
    assert "1.5, -2]"[..3] == "1.5";
    assert "-2]"[..2] == "-2";
  }

  /** `float("1.5")` and `float("-2")`. */
  lemma NumeralExamples()
    ensures IsNumeral("1.5") && NumeralValue("1.5") == 1.5
    ensures IsNumeral("-2") && NumeralValue("-2") == -2.0
  {
    assert DigitRun("1.5", 0) == 1 && "1.5"[..1] == "1" && "1.5"[2..] == "5";
    assert DigitsValue("1") == 1 && DigitsValue("5") == 5 && Pow10(1) == 10;
    assert "-2"[1..] == "2" && DigitRun("2", 0) == 1 && "2"[..1] == "2";
    assert DigitsValue("2") == 2;
  }

  /** The text "[1.5, -2]" gives latitude 1.5 and longitude -2. */
  lemma CoordinatesExample()
    ensures ParseCoordinates(CoordText("[1.5, -2]")) == (Some(1.5), Some(-2.0))
  {
    TokensExample();
    NumeralExamples();
  }

  /** Text with a single number has no coordinates. */
  lemma CoordinatesOneNumber()
    ensures ParseCoordinates(CoordText("7")) == (None, None)
  {
    assert DigitRun("7", 0) == 1;
    assert MatchAt("7") == Some(1);
    assert "7"[1..] == [];
  }

  // ---------------------------------------------------------------------------
  // Units
  // ---------------------------------------------------------------------------

  /** A cell as the CSV reader produces it: missing (NaN) or text. */
  datatype Cell = Null | Text(s: string)

  /** `str()` of a cell: a missing value reads as "nan". */
  function CellText(c: Cell): string {
    match c
    case Null => "nan"
    case Text(s) => s
  }

  /** `normalize_unit`: `None` stays `None`; anything else is turned into
      text first (a NaN into "nan"), then trimmed, lower-cased and folded
      as the AQI module does. */
  function NormalizeUnit(unit: Option<Cell>): (r: Option<string>)
    ensures r.Some? <==> unit.Some?
  {
    match unit
    case None => None
    case Some(c) =>
      var u := Lower(Strip(CellText(c)));
      var u := ReplaceAll(u, "µ", "u");
      var u := ReplaceAll(u, "ug/m^3", "ug/m3");
      var u := ReplaceAll(u, "ug/m³", "ug/m3");
      Some(ReplaceAll(u, "mg/m³", "mg/m3"))
  }

  /** On text and on `None`, the pipeline's unit normalisation agrees with
      the one the converter applies. */
  lemma NormalizeUnitAgrees(unit: Option<string>)
    ensures NormalizeUnit(if unit.None? then None else Some(Text(unit.value))) == Aqi.NormalizeUnit(unit)
  {
  }

  /** The text "nan" has nothing to trim, lower-case or fold. */
  lemma NanFolded()
    ensures Aqi.NormalizeUnit(Some("nan")) == Some("nan")
  {
    var s := "nan";
    assert s[0] == 'n' && s[|s| - 1] == 'n' && !IsSpace('n');
    assert forall i :: 0 <= i < |s| ==> s[i] in "an";
    assert 'µ' !in s && '^' !in s && '³' !in s;
    Aqi.NormalizeFolded(s);
  }

  /** A missing unit cell is normalised like the text "nan". */
  lemma MissingUnitIsNan()
    ensures NormalizeUnit(Some(Null)) == Some("nan")
  {
    NormalizeUnitAgrees(Some("nan"));
    NanFolded();
  }

  /** A missing unit cell becomes the unit "nan", which no pollutant accepts. */
  lemma MissingUnitUnsupported(p: Aqi.Pollutant)
    ensures NormalizeUnit(Some(Null)) == Some("nan")
    ensures "nan" !in Aqi.SupportedUnits(p)
  {
    MissingUnitIsNan();
    NanUnsupported(p);
  }

  /** No pollutant accepts the unit "nan". */
  lemma NanUnsupported(p: Aqi.Pollutant)
    ensures "nan" !in Aqi.SupportedUnits(p)
  {
    assert "nan"[0] == 'n';
    assert forall u :: u in Aqi.SupportedUnits(p) ==> |u| > 0 && u[0] != 'n';
  }

  // ---------------------------------------------------------------------------
  // Cleaning
  // ---------------------------------------------------------------------------

  /** A frame: column names and rows of cells, one per column. */
  datatype Frame = Frame(columns: seq<string>, rows: seq<seq<Cell>>)

  /** The set of pollutant codes the pipeline keeps. */
  const Pollutants: set<string> := {"pm25", "pm10", "no2", "o3", "co", "so2"}

  /** The columns the cleaning reads, in the order it first reads them. */
  const Required: seq<string> := ["pollutant", "unit", "value", "last_updated", "coordinates", "location"]

  /** Where a name sits among the columns: its first position. */
  function ColumnIndex(columns: seq<string>, name: string): (r: Option<nat>)
    ensures r.None? <==> name !in columns
    ensures r.Some? ==> r.value < |columns| && columns[r.value] == name
  {
    if columns == [] then None
    else if columns[0] == name then Some(0)
    else match ColumnIndex(columns[1..], name)
      case None => None
      case Some(k) => Some(k + 1)
  }

  /** Positions of the columns a row is read through; the optional columns
      may be absent. */
  datatype Layout = Layout(pollutant: nat, unit: nat, value: nat, lastUpdated: nat, coordinates: nat,
                           location: nat, country: Option<nat>, city: Option<nat>, sourceName: Option<nat>)

  predicate Fits(lay: Layout, width: nat) {
    && lay.pollutant < width && lay.unit < width && lay.value < width && lay.lastUpdated < width
    && lay.coordinates < width && lay.location < width
    && (lay.country.Some? ==> lay.country.value < width)
    && (lay.city.Some? ==> lay.city.value < width)
    && (lay.sourceName.Some? ==> lay.sourceName.value < width)
  }

  /** The cell of a row in column `i` (every row of a frame has every
      column; a position past the row reads as missing). */
  function At(row: seq<Cell>, i: nat): Cell {
    if i < |row| then row[i] else Null
  }

  /** The column positions, or the `KeyError` for the first required column
      the frame lacks. */
  function LayoutOf(columns: seq<string>): (r: Result<Layout>)
    ensures r.Failure? <==> exists c :: c in Required && c !in columns
    ensures r.Failure? ==> r.error in Required && r.error !in columns
    ensures r.Success? ==> Fits(r.value, |columns|)
  {
    var ix := (name: string) => ColumnIndex(columns, name);
    if ix("pollutant").None? then Failure("pollutant")
    else if ix("unit").None? then Failure("unit")
    else if ix("value").None? then Failure("value")
    else if ix("last_updated").None? then Failure("last_updated")
    else if ix("coordinates").None? then Failure("coordinates")
    else if ix("location").None? then Failure("location")
    else Success(Layout(ix("pollutant").value, ix("unit").value, ix("value").value, ix("last_updated").value,
                        ix("coordinates").value, ix("location").value,
                        ix("country"), ix("city"), ix("source_name")))
  }

  /** A row after cleaning. Optional columns the frame lacks hold `Null`. */
  datatype CleanRow = CleanRow(country: Cell, city: Cell, location: Cell, latitude: Option<real>,
                               longitude: Option<real>, timestamp: int, pollutant: string,
                               valueStd: real, unitStd: string, sourceName: Cell)

  /** `astype(str).str.strip().str.lower()` on a pollutant cell. */
  function PollutantText(c: Cell): string {
    Lower(Strip(CellText(c)))
  }

  /** A cell passed through a lenient parser: missing stays missing, and
      text the parser rejects becomes missing. */
  function Parsed<T>(c: Cell, parse: string -> Option<T>): Option<T> {
    match c
    case Null => None
    case Text(s) => parse(s)
  }

  function CoordsOf(c: Cell): CoordCell {
    match c
    case Null => NoCoords
    case Text(s) => CoordText(s)
  }

  function OptionalCell(row: seq<Cell>, ix: Option<nat>): Cell {
    if ix.None? then Null else At(row, ix.value)
  }

  /** One row through the cleaning steps: the pollutant filter, unit
      normalisation, numeric and timestamp parsing (`parseValue` and
      `parseTime` stand for `pd.to_numeric` and `pd.to_datetime` with
      coercion), coordinates, conversion, and the drop of rows without a
      timestamp or a converted value. */
  function CleanOne(lay: Layout, row: seq<Cell>, parseValue: string -> Option<real>,
                    parseTime: string -> Option<int>): (r: Option<CleanRow>)
    ensures r.Some? <==>
      && PollutantText(At(row, lay.pollutant)) in Pollutants
      && Parsed(At(row, lay.lastUpdated), parseTime).Some?
      && Aqi.ConvertToStandard(PollutantText(At(row, lay.pollutant)), Parsed(At(row, lay.value), parseValue),
                               NormalizeUnit(Some(At(row, lay.unit)))).Some?
    ensures r.Some? ==>
      && r.value.pollutant == PollutantText(At(row, lay.pollutant))
      && r.value.timestamp == Parsed(At(row, lay.lastUpdated), parseTime).value
      && Aqi.ConvertToStandard(r.value.pollutant, Parsed(At(row, lay.value), parseValue),
                               NormalizeUnit(Some(At(row, lay.unit))))
         == Some(Aqi.StdReading(r.value.valueStd, r.value.unitStd))
      && r.value.location == At(row, lay.location)
      && (r.value.latitude, r.value.longitude) == ParseCoordinates(CoordsOf(At(row, lay.coordinates)))
  {
    var pollutant := PollutantText(At(row, lay.pollutant));
    if pollutant !in Pollutants then None
    else
      var unit := NormalizeUnit(Some(At(row, lay.unit)));
      var value := Parsed(At(row, lay.value), parseValue);
      var timestamp := Parsed(At(row, lay.lastUpdated), parseTime);
      var (lat, lon) := ParseCoordinates(CoordsOf(At(row, lay.coordinates)));
      match Aqi.ConvertToStandard(pollutant, value, unit)
      case None => None
      case Some(converted) =>
        if timestamp.None? then None
        else Some(CleanRow(OptionalCell(row, lay.country), OptionalCell(row, lay.city), At(row, lay.location),
                           lat, lon, timestamp.value, pollutant, converted.value, converted.unit,
                           OptionalCell(row, lay.sourceName)))
  }

  /** The results `f` gives, in order, leaving out the `None`s. */
  function FilterMap<A, B>(xs: seq<A>, f: A -> Option<B>): seq<B>
  {
    if xs == [] then []
    else
      var init := FilterMap(xs[..|xs| - 1], f);
      match f(xs[|xs| - 1])
      case None => init
      case Some(y) => init + [y]
  }

  /** Every result is `f` of some element. */
  lemma {:induction false} FilterMapFrom<A, B>(xs: seq<A>, f: A -> Option<B>, y: B)
    requires y in FilterMap(xs, f)
    ensures exists i :: 0 <= i < |xs| && f(xs[i]) == Some(y)
  {
    var init := xs[..|xs| - 1];
    if y in FilterMap(init, f) {
      FilterMapFrom(init, f, y);
      var i :| 0 <= i < |init| && f(init[i]) == Some(y);
      assert xs[i] == init[i];
    } else {
      assert f(xs[|xs| - 1]) == Some(y);
    }
  }

  /** The rows that survive filtering and `dropna`, in order. */
  function Survivors(lay: Layout, rows: seq<seq<Cell>>, parseValue: string -> Option<real>,
                     parseTime: string -> Option<int>): seq<CleanRow>
  {
    FilterMap(rows, row => CleanOne(lay, row, parseValue, parseTime))
  }

  /** The subset `drop_duplicates` compares rows on. Missing cells compare
      equal to each other, as pandas compares NaN with NaN there. */
  datatype DedupKey = DedupKey(timestamp: int, location: Cell, pollutant: string, valueStd: real,
                               latitude: Option<real>, longitude: Option<real>)

  function KeyOfRow(r: CleanRow): DedupKey {
    DedupKey(r.timestamp, r.location, r.pollutant, r.valueStd, r.latitude, r.longitude)
  }

  function KeySet(rows: seq<CleanRow>): set<DedupKey> {
    set r | r in rows :: KeyOfRow(r)
  }

  /** `drop_duplicates(subset=...)` with `keep="first"`: a row is kept when
      no earlier row has its key. */
  function Dedup(rows: seq<CleanRow>): seq<CleanRow>
  {
    if rows == [] then []
    else
      var init := rows[..|rows| - 1];
      var last := rows[|rows| - 1];
      if KeyOfRow(last) in KeySet(init) then Dedup(init) else Dedup(init) + [last]
  }

  /** `a` is `b` with some elements left out, order kept. */
  ghost predicate IsSubsequence<T>(a: seq<T>, b: seq<T>)
    decreases |b|
  {
    || a == []
    || (&& b != []
        && (|| (a[|a| - 1] == b[|b| - 1] && IsSubsequence(a[..|a| - 1], b[..|b| - 1]))
            || IsSubsequence(a, b[..|b| - 1])))
  }

  lemma {:induction false} SubsequenceMembers<T>(a: seq<T>, b: seq<T>)
    requires IsSubsequence(a, b)
    ensures forall x :: x in a ==> x in b
    decreases |b|
  {
    if a != [] {
      var bi := b[..|b| - 1];
      if a[|a| - 1] == b[|b| - 1] && IsSubsequence(a[..|a| - 1], bi) {
        SubsequenceMembers(a[..|a| - 1], bi);
        assert a == a[..|a| - 1] + [a[|a| - 1]];
      } else {
        SubsequenceMembers(a, bi);
      }
    }
  }

  /** Duplicate removal keeps the set of keys. */
  lemma {:induction false} DedupKeys(rows: seq<CleanRow>)
    ensures KeySet(Dedup(rows)) == KeySet(rows)
  {
    if rows != [] {
      var init := rows[..|rows| - 1];
      var last := rows[|rows| - 1];
      DedupKeys(init);
      assert rows == init + [last];
      assert KeySet(rows) == KeySet(init) + {KeyOfRow(last)};
      if KeyOfRow(last) !in KeySet(init) {
        assert KeySet(Dedup(init) + [last]) == KeySet(Dedup(init)) + {KeyOfRow(last)};
      }
    }
  }

  /** No two rows left by duplicate removal share a key. */
  lemma {:induction false} DedupDistinct(rows: seq<CleanRow>)
    ensures forall i, j :: 0 <= i < j < |Dedup(rows)| ==> KeyOfRow(Dedup(rows)[i]) != KeyOfRow(Dedup(rows)[j])
  {
    if rows != [] {
      var init := rows[..|rows| - 1];
      var last := rows[|rows| - 1];
      DedupDistinct(init);
      if KeyOfRow(last) !in KeySet(init) {
        DedupKeys(init);
        var d := Dedup(rows);
        assert d == Dedup(init) + [last];
        forall i, j | 0 <= i < j < |d|
          ensures KeyOfRow(d[i]) != KeyOfRow(d[j])
        {
          if j == |d| - 1 {
            assert d[i] in Dedup(init);
          } else {
            assert d[i] == Dedup(init)[i] && d[j] == Dedup(init)[j];
          }
        }
      }
    }
  }

  /** Duplicate removal only leaves rows out; it never reorders them. */
  lemma {:induction false} DedupSubsequence(rows: seq<CleanRow>)
    ensures IsSubsequence(Dedup(rows), rows)
  {
    if rows != [] {
      var init := rows[..|rows| - 1];
      DedupSubsequence(init);
      var d := Dedup(rows);
      if d != Dedup(init) {
        assert d[..|d| - 1] == Dedup(init);
      }
    }
  }

  /** The first row with each key is kept. */
  lemma {:induction false} DedupKeepsFirst(rows: seq<CleanRow>, i: nat)
    requires i < |rows| && forall j :: 0 <= j < i ==> KeyOfRow(rows[j]) != KeyOfRow(rows[i])
    ensures rows[i] in Dedup(rows)
  {
    var init := rows[..|rows| - 1];
    var last := rows[|rows| - 1];
    if i < |init| {
      assert init[i] == rows[i];
      assert forall j :: 0 <= j < i ==> init[j] == rows[j];
      DedupKeepsFirst(init, i);
    }
  }

  /** The output columns: the members of the keep list that the frame has,
      in keep-list order. */
  const KeepColumns: seq<string> := ["country", "city", "location", "latitude", "longitude", "timestamp",
                                     "pollutant", "value_std", "unit_std", "source_name"]

  /** The columns the cleaning adds to every frame. */
  const Derived: set<string> := {"timestamp", "latitude", "longitude", "value_std", "unit_std"}

  /** `[c for c in keep if c in columns]`. */
  function PresentColumns(keep: seq<string>, columns: set<string>): (r: seq<string>)
    ensures forall c :: c in r <==> c in keep && c in columns
    ensures IsSubsequence(r, keep)
  {
    if keep == [] then []
    else
      var init := PresentColumns(keep[..|keep| - 1], columns);
      assert forall c :: c in keep <==> c in keep[..|keep| - 1] || c == keep[|keep| - 1];
      if keep[|keep| - 1] in columns then init + [keep[|keep| - 1]] else init
  }

  /** The frame after cleaning. */
  datatype CleanFrame = CleanFrame(columns: seq<string>, rows: seq<CleanRow>)

  /** The column names after `standardize_columns`. */
  function RenamedColumns(columns: seq<string>): (r: seq<string>)
    ensures |r| == |columns|
  {
    seq(|columns|, i requires 0 <= i < |columns| => RenamedColumn(columns, NormalizeColName, columns[i]))
  }

  /** The `ValueError` raised when no row passes the pollutant filter: the
      row-wise conversion of an empty frame with `result_type="expand"`
      returns a copy of the whole frame, which cannot take the two names
      `value_std` and `unit_std`. */
  const LengthMismatch: string := "Length mismatch"

  /** The row passes the pollutant filter: its pollutant cell, stripped
      and lower-cased, is one of the six. */
  predicate Recognised(row: seq<Cell>, pollutant: nat) {
    PollutantText(At(row, pollutant)) in Pollutants
  }

  /** Some row passes the pollutant filter. */
  predicate AnyRecognised(columns: seq<string>, rows: seq<seq<Cell>>) {
    && "pollutant" in columns
    && exists i :: 0 <= i < |rows| && Recognised(rows[i], ColumnIndex(columns, "pollutant").value)
  }

  /** The scan for a row that passes the pollutant filter. */
  method FindRecognised(rows: seq<seq<Cell>>, pollutant: nat) returns (found: bool)
    ensures found <==> exists i :: 0 <= i < |rows| && Recognised(rows[i], pollutant)
  {
    found := false;
    for i := 0 to |rows|
      invariant found <==> exists j :: 0 <= j < i && Recognised(rows[j], pollutant)
    {
      var here := Recognised(rows[i], pollutant);
      assert forall j :: 0 <= j < i + 1 ==> (Recognised(rows[j], pollutant) <==> (j < i && Recognised(rows[j], pollutant)) || (j == i && here));
      found := found || here;
    }
  }

  /** `clean_raw_data`: standardise the column names, fail on a missing
      required column, fail when no row passes the pollutant filter, clean
      row by row, drop duplicates, keep the listed columns. The `location`
      column is first read after the conversion, so an empty filtered frame
      fails before a missing `location` is noticed. */
  method CleanRawData(frame: Frame, parseValue: string -> Option<real>, parseTime: string -> Option<int>)
    returns (result: Result<CleanFrame>)
    ensures var columns := RenamedColumns(frame.columns);
      match LayoutOf(columns)
      case Failure(e) =>
        result == Failure(if e == "location" && !AnyRecognised(columns, frame.rows) then LengthMismatch else e)
      case Success(lay) =>
        result == if !AnyRecognised(columns, frame.rows) then Failure(LengthMismatch)
          else Success(CleanFrame(PresentColumns(KeepColumns, (set c | c in columns) + Derived),
                                  Dedup(Survivors(lay, frame.rows, parseValue, parseTime))))
  {
    var columns := StandardizeColumns(frame.columns);
    assert columns == RenamedColumns(frame.columns);
    var layout := LayoutOf(columns);
    if layout.Failure? && layout.error != "location" {
      return Failure(layout.error);
    }
    var pollutant := ColumnIndex(columns, "pollutant").value;
    var recognised := FindRecognised(frame.rows, pollutant);
    if !recognised {
      return Failure(LengthMismatch);
    }
    if layout.Failure? {
      return Failure(layout.error);
    }
    var lay := layout.value;
    var kept := CleanRows(lay, frame.rows, parseValue, parseTime);
    var unique := DropDuplicates(kept);
    result := Success(CleanFrame(PresentColumns(KeepColumns, (set c | c in columns) + Derived), unique));
  }

  /** The per-row steps of the cleaning over the whole frame: the rows that
      survive, cleaned, in order. */
  method CleanRows(lay: Layout, rows: seq<seq<Cell>>, parseValue: string -> Option<real>,
                   parseTime: string -> Option<int>) returns (kept: seq<CleanRow>)
    ensures kept == Survivors(lay, rows, parseValue, parseTime)
  {
    var clean := row => CleanOne(lay, row, parseValue, parseTime);
    kept := [];
    for i := 0 to |rows|
      invariant kept == FilterMap(rows[..i], clean)
    {
      assert rows[..i + 1][..i] == rows[..i];
      var row := clean(rows[i]);
      if row.Some? {
        kept := kept + [row.value];
      }
    }
    assert rows[..|rows|] == rows;
  }

  /** `drop_duplicates`: one pass with the set of keys seen so far. */
  method DropDuplicates(rows: seq<CleanRow>) returns (unique: seq<CleanRow>)
    ensures unique == Dedup(rows)
  {
    var seen: set<DedupKey> := {};
    unique := [];
    for i := 0 to |rows|
      invariant unique == Dedup(rows[..i]) && seen == KeySet(rows[..i])
    {
      assert rows[..i + 1] == rows[..i] + [rows[i]];
      DedupAppend(rows[..i], rows[i]);
      var key := KeyOfRow(rows[i]);
      if key !in seen {
        unique := unique + [rows[i]];
      }
      seen := seen + {key};
    }
    assert rows[..|rows|] == rows;
  }

  /** One more row: it is kept exactly when its key is new, and its key
      joins the keys seen. */
  lemma DedupAppend(rows: seq<CleanRow>, r: CleanRow)
    ensures KeySet(rows + [r]) == KeySet(rows) + {KeyOfRow(r)}
    ensures Dedup(rows + [r]) == if KeyOfRow(r) in KeySet(rows) then Dedup(rows) else Dedup(rows) + [r]
  {
    assert (rows + [r])[..|rows|] == rows;
  }


  /** Every cleaned row is the cleaning of some input row, so it has a
      trimmed, lower-cased pollutant code from the set, a timestamp, and
      the converter's reading of that row's value and unit. */
  lemma CleanRowsValid(lay: Layout, rows: seq<seq<Cell>>, parseValue: string -> Option<real>,
                       parseTime: string -> Option<int>, r: CleanRow)
    requires r in Dedup(Survivors(lay, rows, parseValue, parseTime))
    ensures r.pollutant in Pollutants
    ensures exists i :: 0 <= i < |rows| && CleanOne(lay, rows[i], parseValue, parseTime) == Some(r)
  {
    var survivors := Survivors(lay, rows, parseValue, parseTime);
    DedupSubsequence(survivors);
    SubsequenceMembers(Dedup(survivors), survivors);
    FilterMapFrom(rows, row => CleanOne(lay, row, parseValue, parseTime), r);
  }

  /** "PM2.5" is only trimmed and lower-cased, to "pm2.5", which is not a
      code: such rows are dropped. */
  lemma DottedPollutantDropped(lay: Layout, row: seq<Cell>, parseValue: string -> Option<real>,
                               parseTime: string -> Option<int>)
    requires At(row, lay.pollutant) == Text("PM2.5")
    ensures CleanOne(lay, row, parseValue, parseTime) == None
  {
    var s := "PM2.5";
    assert Strip(s) == s by {
      assert !IsSpace(s[0]) && !IsSpace(s[|s| - 1]);
      StripUnchanged(s);
    }
    assert |PollutantText(At(row, lay.pollutant))| == 5;
  }

  /** A row whose unit cell is missing is dropped: the unit reads "nan". */
  lemma MissingUnitDropped(lay: Layout, row: seq<Cell>, parseValue: string -> Option<real>,
                           parseTime: string -> Option<int>)
    requires At(row, lay.unit) == Null
    ensures CleanOne(lay, row, parseValue, parseTime) == None
  {
    var p := Aqi.PollutantOf(PollutantText(At(row, lay.pollutant)));
    if p.Some? {
      MissingUnitUnsupported(p.value);
    }
  }

  // ---------------------------------------------------------------------------
  // Aggregation and pivot
  // ---------------------------------------------------------------------------

  /** `dt.floor` to buckets of `width` time units: the start of the bucket
      holding `t`. */
  function Floor(t: int, width: int): (b: int)
    requires width > 0
    ensures b <= t < b + width
    ensures b % width == 0
  {
    var q := t / width;
    assert q * width + t % width == t;
    MultipleMod(q, width);
    q * width
  }

  /** A multiple of `width` leaves no remainder. */
  lemma MultipleMod(q: int, width: int)
    requires width > 0
    ensures (q * width) % width == 0
  {
    var m := q * width;
    var d, r := m / width, m % width;
    assert m == d * width + r;
    assert r == (q - d) * width;
    ScaledOutside(q - d, width);
  }

  /** A non-zero multiple of `width` is at least `width` away from zero. */
  lemma ScaledOutside(k: int, width: int)
    requires width > 0
    ensures k >= 1 ==> k * width >= width
    ensures k <= -1 ==> k * width <= -width
  {
    if k >= 1 {
      assert k * width == (k - 1) * width + width;
    }
    if k <= -1 {
      assert k * width == (k + 1) * width - width;
    }
  }

  /** The pivot index of a long row: country and city when the frame has
      those columns, location, coordinates and time bucket. */
  datatype PivotKey = PivotKey(country: Option<string>, city: Option<string>, location: string,
                               latitude: real, longitude: real, bucket: int)

  /** The index of a row whose timestamp has been floored, or `None` when a
      field of the index is missing: `pivot_table` leaves such groups out.
      The source name is not part of the index. */
  function PivotKeyOf(hasCountry: bool, hasCity: bool, r: CleanRow): Option<PivotKey>
  {
    if (hasCountry && r.country.Null?) || (hasCity && r.city.Null?) then None
    else if r.location.Null? || r.latitude.None? || r.longitude.None? then None
    else Some(PivotKey(if hasCountry then Some(r.country.s) else None, if hasCity then Some(r.city.s) else None,
                       r.location.s, r.latitude.value, r.longitude.value, r.timestamp))
  }

  /** The `value_std` readings of pollutant `p` at index `k`, in order. */
  function Matching(hasCountry: bool, hasCity: bool, rows: seq<CleanRow>, k: PivotKey, p: string): seq<real>
  {
    if rows == [] then []
    else
      var init := Matching(hasCountry, hasCity, rows[..|rows| - 1], k, p);
      var r := rows[|rows| - 1];
      if PivotKeyOf(hasCountry, hasCity, r) == Some(k) && r.pollutant == p then init + [r.valueStd] else init
  }

  function Sum(s: seq<real>): real {
    if s == [] then 0.0 else Sum(s[..|s| - 1]) + s[|s| - 1]
  }

  /** The arithmetic mean of a non-empty list. */
  function Mean(s: seq<real>): real
    requires s != []
  {
    Sum(s) / |s| as real
  }

  /** A reading of `p` at `k` is in the list of matching readings, and only
      those are. */
  lemma {:induction false} MatchingMembers(hasCountry: bool, hasCity: bool, rows: seq<CleanRow>, k: PivotKey, p: string)
    ensures forall v :: v in Matching(hasCountry, hasCity, rows, k, p) <==>
      exists r :: r in rows && PivotKeyOf(hasCountry, hasCity, r) == Some(k) && r.pollutant == p && r.valueStd == v
  {
    if rows != [] {
      var init := rows[..|rows| - 1];
      MatchingMembers(hasCountry, hasCity, init, k, p);
      assert rows == init + [rows[|rows| - 1]];
      assert forall r :: r in rows <==> r in init || r == rows[|rows| - 1];
    }
  }

  /** The indices of the rows, and the pollutants read at one index. */
  function IndexKeys(hasCountry: bool, hasCity: bool, rows: seq<CleanRow>): set<PivotKey> {
    set r | r in rows && PivotKeyOf(hasCountry, hasCity, r).Some? :: PivotKeyOf(hasCountry, hasCity, r).value
  }

  function PollutantsAt(hasCountry: bool, hasCity: bool, rows: seq<CleanRow>, k: PivotKey): set<string> {
    set r | r in rows && PivotKeyOf(hasCountry, hasCity, r) == Some(k) :: r.pollutant
  }

  /** Each pollutant read at an index has at least one matching reading. */
  lemma MatchingNonEmpty(hasCountry: bool, hasCity: bool, rows: seq<CleanRow>, k: PivotKey, p: string)
    requires p in PollutantsAt(hasCountry, hasCity, rows, k)
    ensures Matching(hasCountry, hasCity, rows, k, p) != []
  {
    MatchingMembers(hasCountry, hasCity, rows, k, p);
    var r :| r in rows && PivotKeyOf(hasCountry, hasCity, r) == Some(k) && r.pollutant == p;
    assert r.valueStd in Matching(hasCountry, hasCity, rows, k, p);
  }

  /** `groupby(...).mean()` followed by `pivot_table(..., aggfunc="mean")`:
      one row per index present, one cell per pollutant read there, holding
      the mean of the matching readings; no cell where there is no reading. */
  function Pivot(hasCountry: bool, hasCity: bool, rows: seq<CleanRow>): (wide: map<PivotKey, map<string, real>>)
    ensures wide.Keys == IndexKeys(hasCountry, hasCity, rows)
    ensures forall k :: k in wide ==> wide[k].Keys == PollutantsAt(hasCountry, hasCity, rows, k)
    ensures forall k, p :: k in wide && p in wide[k] ==>
      && Matching(hasCountry, hasCity, rows, k, p) != []
      && wide[k][p] == Mean(Matching(hasCountry, hasCity, rows, k, p))
  {
    PollutantsHaveReadings(hasCountry, hasCity, rows);
    map k | k in IndexKeys(hasCountry, hasCity, rows) ::
      map p | p in PollutantsAt(hasCountry, hasCity, rows, k) :: Mean(Matching(hasCountry, hasCity, rows, k, p))
  }

  /** Every pollutant read at an index has a reading to average. */
  lemma PollutantsHaveReadings(hasCountry: bool, hasCity: bool, rows: seq<CleanRow>)
    ensures forall k, p :: p in PollutantsAt(hasCountry, hasCity, rows, k) ==> Matching(hasCountry, hasCity, rows, k, p) != []
  {
    forall k, p | p in PollutantsAt(hasCountry, hasCity, rows, k)
      ensures Matching(hasCountry, hasCity, rows, k, p) != []
    {
      MatchingNonEmpty(hasCountry, hasCity, rows, k, p);
    }
  }

  /** The rows with their timestamps floored to buckets. */
  function Bucketed(rows: seq<CleanRow>, width: int): (r: seq<CleanRow>)
    requires width > 0
    ensures |r| == |rows|
  {
    seq(|rows|, i requires 0 <= i < |rows| => rows[i].(timestamp := Floor(rows[i].timestamp, width)))
  }

  /** `aggregate_and_pivot`: floors the timestamp column of a copy in place,
      then groups and pivots. */
  method AggregateAndPivot(frame: CleanFrame, width: int) returns (wide: map<PivotKey, map<string, real>>)
    requires width > 0
    ensures wide == Pivot("country" in frame.columns, "city" in frame.columns, Bucketed(frame.rows, width))
  {
    var rows := frame.rows;
    for i := 0 to |rows|
      invariant |rows| == |frame.rows|
      invariant forall j :: 0 <= j < i ==> rows[j] == frame.rows[j].(timestamp := Floor(frame.rows[j].timestamp, width))
      invariant forall j :: i <= j < |rows| ==> rows[j] == frame.rows[j]
    {
      rows := rows[i := rows[i].(timestamp := Floor(rows[i].timestamp, width))];
    }
    assert rows == Bucketed(frame.rows, width);
    wide := Pivot("country" in frame.columns, "city" in frame.columns, rows);
  }

  /** A sum of values at least `lo` and at most `hi` lies between the
      matching multiples. */
  lemma {:induction false} SumBounds(s: seq<real>, lo: real, hi: real)
    requires forall i :: 0 <= i < |s| ==> lo <= s[i] <= hi
    ensures lo * |s| as real <= Sum(s) <= hi * |s| as real
  {
    if s != [] {
      SumBounds(s[..|s| - 1], lo, hi);
    }
  }

  /** The mean lies between the smallest and the largest reading. */
  lemma MeanBounds(s: seq<real>, lo: real, hi: real)
    requires s != [] && forall i :: 0 <= i < |s| ==> lo <= s[i] <= hi
    ensures lo <= Mean(s) <= hi
  {
    SumBounds(s, lo, hi);
    var n := |s| as real;
    var m := Mean(s);
    assert m * n == Sum(s);
    assert (m - lo) * n == m * n - lo * n;
    assert (hi - m) * n == hi * n - m * n;
    NonNegativeFactor(m - lo, n);
    NonNegativeFactor(hi - m, n);
  }

  /** A product with a positive factor that is not negative has a
      non-negative other factor. */
  lemma NonNegativeFactor(x: real, n: real)
    requires n > 0.0 && x * n >= 0.0
    ensures x >= 0.0
  {
  }

  /** The mean of 10 and 20 is 15. */
  lemma MeanExample()
    ensures Mean([10.0, 20.0]) == 15.0
  {
    assert [10.0, 20.0][..1] == [10.0];
    assert [10.0][..0] == [];
  }

  /** Every cell of the wide table lies between the smallest and the
      largest `value_std` read for its index and pollutant. */
  lemma PivotCellBounds(hasCountry: bool, hasCity: bool, rows: seq<CleanRow>, k: PivotKey, p: string, lo: real, hi: real)
    requires k in Pivot(hasCountry, hasCity, rows) && p in Pivot(hasCountry, hasCity, rows)[k]
    requires forall r :: r in rows && PivotKeyOf(hasCountry, hasCity, r) == Some(k) && r.pollutant == p ==>
      lo <= r.valueStd <= hi
    ensures lo <= Pivot(hasCountry, hasCity, rows)[k][p] <= hi
  {
    var m := Matching(hasCountry, hasCity, rows, k, p);
    MatchingMembers(hasCountry, hasCity, rows, k, p);
    forall i | 0 <= i < |m|
      ensures lo <= m[i] <= hi
    {
      assert m[i] in m;
    }
    MeanBounds(m, lo, hi);
  }

  /** Two readings of 10 and 20 for the same index and pollutant pivot to
      one cell holding 15. */
  lemma PivotExample()
    ensures var r := CleanRow(Null, Null, Text("A"), Some(1.0), Some(2.0), 0, "pm25", 10.0, "ug/m3", Null);
      var k := PivotKey(None, None, "A", 1.0, 2.0, 0);
      var wide := Pivot(false, false, [r, r.(valueStd := 20.0)]);
      k in wide && "pm25" in wide[k] && wide[k]["pm25"] == 15.0
  {
    var r := CleanRow(Null, Null, Text("A"), Some(1.0), Some(2.0), 0, "pm25", 10.0, "ug/m3", Null);
    var r' := r.(valueStd := 20.0);
    var k := PivotKey(None, None, "A", 1.0, 2.0, 0);
    var rows := [r, r'];
    assert PivotKeyOf(false, false, r) == Some(k);
    assert r in rows;
    assert k in IndexKeys(false, false, rows);
    assert "pm25" in PollutantsAt(false, false, rows, k);
    assert rows[..1] == [r] && [r][..0] == [];
    assert PivotKeyOf(false, false, r') == Some(k);
    assert Matching(false, false, [], k, "pm25") == [];
    assert Matching(false, false, [r], k, "pm25") == [10.0];
    assert Matching(false, false, rows, k, "pm25") == [10.0] + [20.0] == [10.0, 20.0];
    MeanExample();
    var wide := Pivot(false, false, rows);
    assert k in wide && "pm25" in wide[k];
  }

  /** The condition under which two row lists pivot alike: row by row, the
      same index, pollutant and reading. */
  predicate SamePivotFields(hasCountry: bool, hasCity: bool, rows: seq<CleanRow>, rows': seq<CleanRow>) {
    && |rows| == |rows'|
    && forall i :: 0 <= i < |rows| ==>
      && PivotKeyOf(hasCountry, hasCity, rows[i]) == PivotKeyOf(hasCountry, hasCity, rows'[i])
      && rows[i].pollutant == rows'[i].pollutant && rows[i].valueStd == rows'[i].valueStd
  }

  lemma SameIndexKeys(hasCountry: bool, hasCity: bool, rows: seq<CleanRow>, rows': seq<CleanRow>, k: PivotKey)
    requires SamePivotFields(hasCountry, hasCity, rows, rows')
    requires k in IndexKeys(hasCountry, hasCity, rows)
    ensures k in IndexKeys(hasCountry, hasCity, rows')
  {
    var r :| r in rows && PivotKeyOf(hasCountry, hasCity, r) == Some(k);
    var i :| 0 <= i < |rows| && rows[i] == r;
    assert rows'[i] in rows';
  }

  lemma SamePollutantsAt(hasCountry: bool, hasCity: bool, rows: seq<CleanRow>, rows': seq<CleanRow>, k: PivotKey, p: string)
    requires SamePivotFields(hasCountry, hasCity, rows, rows')
    requires p in PollutantsAt(hasCountry, hasCity, rows, k)
    ensures p in PollutantsAt(hasCountry, hasCity, rows', k)
  {
    var r :| r in rows && PivotKeyOf(hasCountry, hasCity, r) == Some(k) && r.pollutant == p;
    var i :| 0 <= i < |rows| && rows[i] == r;
    assert rows'[i] in rows';
  }

  /** Under the same pivot fields, an index row's cells agree. */
  lemma PivotRowAlike(hasCountry: bool, hasCity: bool, rows: seq<CleanRow>, rows': seq<CleanRow>, k: PivotKey)
    requires SamePivotFields(hasCountry, hasCity, rows, rows')
    requires k in Pivot(hasCountry, hasCity, rows) && k in Pivot(hasCountry, hasCity, rows')
    ensures Pivot(hasCountry, hasCity, rows)[k] == Pivot(hasCountry, hasCity, rows')[k]
  {
    assert SamePivotFields(hasCountry, hasCity, rows', rows);
    var cells, cells' := Pivot(hasCountry, hasCity, rows)[k], Pivot(hasCountry, hasCity, rows')[k];
    forall p ensures p in cells <==> p in cells' {
      if p in cells { SamePollutantsAt(hasCountry, hasCity, rows, rows', k, p); }
      if p in cells' { SamePollutantsAt(hasCountry, hasCity, rows', rows, k, p); }
    }
    forall p | p in cells ensures cells[p] == cells'[p] {
      MatchingAlike(hasCountry, hasCity, rows, rows', k, p);
    }
  }

  /** Rows with the same index, pollutant and reading pivot alike, whatever
      else differs: in particular the source name never affects the result. */
  lemma PivotIgnoresOtherFields(hasCountry: bool, hasCity: bool, rows: seq<CleanRow>, rows': seq<CleanRow>)
    requires SamePivotFields(hasCountry, hasCity, rows, rows')
    ensures Pivot(hasCountry, hasCity, rows) == Pivot(hasCountry, hasCity, rows')
  {
    assert SamePivotFields(hasCountry, hasCity, rows', rows);
    var wide, wide' := Pivot(hasCountry, hasCity, rows), Pivot(hasCountry, hasCity, rows');
    forall k ensures k in wide <==> k in wide' {
      if k in wide { SameIndexKeys(hasCountry, hasCity, rows, rows', k); }
      if k in wide' { SameIndexKeys(hasCountry, hasCity, rows', rows, k); }
    }
    forall k | k in wide ensures wide[k] == wide'[k] {
      PivotRowAlike(hasCountry, hasCity, rows, rows', k);
    }
  }

  /** Two frames that differ only in their source names pivot alike. */
  lemma PivotIgnoresSourceName(hasCountry: bool, hasCity: bool, rows: seq<CleanRow>, names: seq<Cell>)
    requires |names| == |rows|
    ensures Pivot(hasCountry, hasCity, rows)
         == Pivot(hasCountry, hasCity, seq(|rows|, i requires 0 <= i < |rows| => rows[i].(sourceName := names[i])))
  {
    var rows' := seq(|rows|, i requires 0 <= i < |rows| => rows[i].(sourceName := names[i]));
    assert SamePivotFields(hasCountry, hasCity, rows, rows');
    PivotIgnoresOtherFields(hasCountry, hasCity, rows, rows');
  }

  lemma {:induction false} MatchingAlike(hasCountry: bool, hasCity: bool, rows: seq<CleanRow>, rows': seq<CleanRow>,
                                         k: PivotKey, p: string)
    requires SamePivotFields(hasCountry, hasCity, rows, rows')
    ensures Matching(hasCountry, hasCity, rows, k, p) == Matching(hasCountry, hasCity, rows', k, p)
  {
    if rows != [] {
      MatchingAlike(hasCountry, hasCity, rows[..|rows| - 1], rows'[..|rows'| - 1], k, p);
    }
  }

  lemma IncompleteIndexKeys(hasCountry: bool, hasCity: bool, rows: seq<CleanRow>, r: CleanRow)
    requires PivotKeyOf(hasCountry, hasCity, r).None?
    ensures IndexKeys(hasCountry, hasCity, rows + [r]) == IndexKeys(hasCountry, hasCity, rows)
  {
    forall k | k in IndexKeys(hasCountry, hasCity, rows + [r])
      ensures k in IndexKeys(hasCountry, hasCity, rows)
    {
      var x :| x in rows + [r] && PivotKeyOf(hasCountry, hasCity, x) == Some(k);
      assert x in rows;
    }
  }

  lemma IncompletePollutantsAt(hasCountry: bool, hasCity: bool, rows: seq<CleanRow>, r: CleanRow, k: PivotKey)
    requires PivotKeyOf(hasCountry, hasCity, r).None?
    ensures PollutantsAt(hasCountry, hasCity, rows + [r], k) == PollutantsAt(hasCountry, hasCity, rows, k)
  {
    forall p | p in PollutantsAt(hasCountry, hasCity, rows + [r], k)
      ensures p in PollutantsAt(hasCountry, hasCity, rows, k)
    {
      var x :| x in rows + [r] && PivotKeyOf(hasCountry, hasCity, x) == Some(k) && x.pollutant == p;
      assert x in rows;
    }
  }

  lemma IncompleteMatching(hasCountry: bool, hasCity: bool, rows: seq<CleanRow>, r: CleanRow, k: PivotKey, p: string)
    requires PivotKeyOf(hasCountry, hasCity, r).None?
    ensures Matching(hasCountry, hasCity, rows + [r], k, p) == Matching(hasCountry, hasCity, rows, k, p)
  {
    assert (rows + [r])[..|rows|] == rows;
  }

  /** Each pivot row is unchanged by a row with a missing index field. */
  lemma IncompletePivotRow(hasCountry: bool, hasCity: bool, rows: seq<CleanRow>, r: CleanRow, k: PivotKey)
    requires PivotKeyOf(hasCountry, hasCity, r).None?
    requires k in Pivot(hasCountry, hasCity, rows) && k in Pivot(hasCountry, hasCity, rows + [r])
    ensures Pivot(hasCountry, hasCity, rows + [r])[k] == Pivot(hasCountry, hasCity, rows)[k]
  {
    var cells, cells' := Pivot(hasCountry, hasCity, rows)[k], Pivot(hasCountry, hasCity, rows + [r])[k];
    IncompletePollutantsAt(hasCountry, hasCity, rows, r, k);
    forall p | p in cells ensures cells[p] == cells'[p] {
      IncompleteMatching(hasCountry, hasCity, rows, r, k, p);
    }
  }

  /** A row with a missing index field adds nothing to the pivot. */
  lemma IncompleteRowIgnored(hasCountry: bool, hasCity: bool, rows: seq<CleanRow>, r: CleanRow)
    requires PivotKeyOf(hasCountry, hasCity, r).None?
    ensures Pivot(hasCountry, hasCity, rows + [r]) == Pivot(hasCountry, hasCity, rows)
  {
    var wide, wide' := Pivot(hasCountry, hasCity, rows), Pivot(hasCountry, hasCity, rows + [r]);
    IncompleteIndexKeys(hasCountry, hasCity, rows, r);
    forall k | k in wide ensures wide[k] == wide'[k] {
      IncompletePivotRow(hasCountry, hasCity, rows, r, k);
    }
  }
}
