/**
 * The data-preparation rules of tesis_resultados_colab.py: the sheet
 * choice, column renaming, the group label found in the string columns and
 * forward-filled, the treatment indicator read from that label, the
 * column-name patterns, the `mujer` indicator and the filters that build
 * the analysis sample. The regressions, tests and plots are not modelled.
 */
module Colab {
  import opened Wrappers
  import opened Seqs
  import opened Text
  import Section6

  // ---------- discover_sheet (lines 61-71) ----------

  const PreferredSheets := ["Hoja1", "Hoja 1", "Sheet1", "Sheet 1"]

  /** The position of the first preferred name the workbook has, or -1. */
  function FirstPresent(preferred: seq<string>, sheetNames: seq<string>): (k: int)
    ensures -1 <= k < |preferred|
    ensures k >= 0 ==> preferred[k] in sheetNames && forall j :: 0 <= j < k ==> preferred[j] !in sheetNames
    ensures k < 0 ==> forall j :: 0 <= j < |preferred| ==> preferred[j] !in sheetNames
  {
    if preferred == [] then -1
    else if preferred[0] in sheetNames then 0
    else
      var k := FirstPresent(preferred[1..], sheetNames);
      assert forall j :: 1 <= j < |preferred| ==> preferred[j] == preferred[1..][j - 1];
      if k < 0 then -1 else k + 1
  }

  /** `discover_sheet`: the first preferred name present in the workbook, else the workbook's first sheet. */
  method DiscoverSheet(sheetNames: seq<string>, preferred: seq<string>) returns (name: string)
    requires |sheetNames| >= 1
    ensures name in sheetNames
    ensures var k := FirstPresent(preferred, sheetNames);
      name == if k >= 0 then preferred[k] else sheetNames[0]
  {
    var j := 0;
    while j < |preferred|
      invariant 0 <= j <= |preferred|
      invariant forall i :: 0 <= i < j ==> preferred[i] !in sheetNames
    {
      if preferred[j] in sheetNames {
        return preferred[j];
      }
      j := j + 1;
    }
    return sheetNames[0];
  }

  /** The other script's sheet choice is the same rule with the single preferred name "Hoja1". */
  lemma PickSheetIsDiscoverRule(sheetNames: seq<string>)
    requires |sheetNames| >= 1
    ensures var k := FirstPresent([Section6.PreferredSheet], sheetNames);
      Section6.PickSheet(sheetNames) == if k >= 0 then [Section6.PreferredSheet][k] else sheetNames[0]
  {
  }

  // ---------- ensure_column (lines 87-90) ----------

  /** `ensure_column`, on the column labels: renames `current` to `alias` only when `current` exists and `alias` does not. */
  function EnsureColumn(columns: seq<string>, current: string, alias: string): (r: seq<string>)
    ensures |r| == |columns|
    ensures !(current in columns && alias !in columns) ==> r == columns
    ensures current in columns && alias !in columns ==>
      && alias in r && (current != alias ==> current !in r)
      && (forall i :: 0 <= i < |columns| && columns[i] == current ==> r[i] == alias)
      && (forall i :: 0 <= i < |columns| && columns[i] != current ==> r[i] == columns[i])
  {
    if current in columns && alias !in columns then
      var r := seq(|columns|, i requires 0 <= i < |columns| => if columns[i] == current then alias else columns[i]);
      assert forall i :: 0 <= i < |columns| && columns[i] == current ==> r[i] == alias;
      r
    else columns
  }

  /** Applying the same renaming twice changes nothing more. */
  lemma EnsureColumnIdempotent(columns: seq<string>, current: string, alias: string)
    ensures EnsureColumn(EnsureColumn(columns, current, alias), current, alias) == EnsureColumn(columns, current, alias)
  {
  }

  // ---------- build_group_label (lines 93-104) ----------

  /** One column of the frame: its label, whether pandas sees it as a string column, and its cells (`None` is NA). */
  datatype Column = Column(name: string, isString: bool, cells: seq<Option<string>>)

  const UnnamedIndex := "Unnamed: 0"

  ghost predicate Rectangular(cols: seq<Column>, n: nat) {
    forall k :: 0 <= k < |cols| ==> |cols[k].cells| == n
  }

  /** `str.lower().str.contains("grupo|trat|control", na=False)` for one cell. */
  predicate Mentions(x: Option<string>) {
    x.Some? && (Contains(Lower(x.value), "grupo") || Contains(Lower(x.value), "trat") || Contains(Lower(x.value), "control"))
  }

  /** `label.mask((label == "") & mask, candidate)`: empty labels take a mentioning cell of this column. */
  function MaskStep(groupLabel: seq<string>, col: Column): (r: seq<string>)
    requires |col.cells| == |groupLabel|
    ensures |r| == |groupLabel|
  {
    seq(|groupLabel|, i requires 0 <= i < |groupLabel| => if groupLabel[i] == "" && Mentions(col.cells[i]) then col.cells[i].value else groupLabel[i])
  }

  /** The label after the loop over the string columns among `cols`. */
  function ScanLabels(cols: seq<Column>, n: nat): (r: seq<string>)
    requires Rectangular(cols, n)
    ensures |r| == n
  {
    if cols == [] then seq(n, i => "")
    else
      var prev := ScanLabels(cols[..|cols| - 1], n);
      var last := cols[|cols| - 1];
      if last.isString then MaskStep(prev, last) else prev
  }

  /** The first string column whose cell in row `i` mentions a group, or -1. */
  function FirstMentioning(cols: seq<Column>, n: nat, i: nat): (k: int)
    requires Rectangular(cols, n) && i < n
    ensures -1 <= k < |cols|
    ensures k >= 0 ==> cols[k].isString && Mentions(cols[k].cells[i])
    ensures k >= 0 ==> forall j :: 0 <= j < k ==> !(cols[j].isString && Mentions(cols[j].cells[i]))
    ensures k < 0 ==> forall j :: 0 <= j < |cols| ==> !(cols[j].isString && Mentions(cols[j].cells[i]))
  {
    if cols == [] then -1
    else if cols[0].isString && Mentions(cols[0].cells[i]) then 0
    else
      var k := FirstMentioning(cols[1..], n, i);
      assert forall j :: 1 <= j < |cols| ==> cols[j] == cols[1..][j - 1];
      if k < 0 then -1 else k + 1
  }

  lemma MentionNonEmpty(x: Option<string>)
    requires Mentions(x)
    ensures x.value != ""
  {
  }

  /** The scan gives each row the cell of the first string column (in column order) that mentions a group, or "". */
  lemma {:induction false} ScanTakesFirstMention(cols: seq<Column>, n: nat, i: nat)
    requires Rectangular(cols, n) && i < n
    ensures var k := FirstMentioning(cols, n, i);
      ScanLabels(cols, n)[i] == if k >= 0 then cols[k].cells[i].value else ""
  {
    if cols != [] {
      var init := cols[..|cols| - 1];
      ScanTakesFirstMention(init, n, i);
      var k0 := FirstMentioning(init, n, i);
      var k := FirstMentioning(cols, n, i);
      assert forall j :: 0 <= j < |init| ==> init[j] == cols[j];
      if k0 >= 0 {
        MentionNonEmpty(init[k0].cells[i]);
        assert k == k0;
      } else {
        assert k < 0 || k == |cols| - 1;
      }
    }
  }

  predicate Blank(x: Option<string>) {
    x.None? || x.value == ""
  }

  /** `replace({"": NA}).ffill()`. */
  function FFill(s: seq<Option<string>>): (r: seq<Option<string>>)
    ensures |r| == |s|
    ensures forall i :: 0 <= i < |r| ==> !Blank(r[i]) || r[i].None?
  {
    if s == [] then []
    else
      var init := FFill(s[..|s| - 1]);
      var last := s[|s| - 1];
      init + [if !Blank(last) then last else if init == [] then None else init[|init| - 1]]
  }

  /** The position of the nearest non-blank value at or before `i`, or -1. */
  function LastFilled(s: seq<Option<string>>, i: nat): (k: int)
    requires i < |s|
    ensures -1 <= k <= i
    ensures k >= 0 ==> !Blank(s[k])
    ensures forall j :: k < j <= i ==> Blank(s[j])
  {
    if !Blank(s[i]) then i else if i == 0 then -1 else LastFilled(s, i - 1)
  }

  /** A blank is filled from the nearest earlier non-blank value; blanks before any value stay missing. */
  lemma {:induction false} FFillNearest(s: seq<Option<string>>, i: nat)
    requires i < |s|
    ensures var k := LastFilled(s, i);
      FFill(s)[i] == if k >= 0 then s[k] else None
    decreases |s|, i
  {
    var init := s[..|s| - 1];
    if i < |s| - 1 {
      FFillNearest(init, i);
      assert forall j :: 0 <= j <= i ==> init[j] == s[j];
      LastFilledPrefix(s, init, i);
    } else if Blank(s[i]) && i > 0 {
      FFillNearest(init, i - 1);
      LastFilledPrefix(s, init, i - 1);
    }
  }

  lemma {:induction false} LastFilledPrefix(s: seq<Option<string>>, init: seq<Option<string>>, i: nat)
    requires i < |init| <= |s| && init == s[..|init|]
    ensures LastFilled(init, i) == LastFilled(s, i)
  {
    if Blank(s[i]) && i > 0 {
      LastFilledPrefix(s, init, i - 1);
    }
  }

  /** The label before filling: the "Unnamed: 0" column when present, else the scan of the string columns. */
  function RawGroupLabel(cols: seq<Column>, n: nat): (r: seq<Option<string>>)
    requires Rectangular(cols, n)
    ensures |r| == n
  {
    var u := FirstNamed(cols, UnnamedIndex);
    if u >= 0 then cols[u].cells
    else
      var scanned := ScanLabels(cols, n);
      seq(n, i requires 0 <= i < n => Some(scanned[i]))
  }

  function FirstNamed(cols: seq<Column>, name: string): (k: int)
    ensures -1 <= k < |cols|
    ensures k >= 0 ==> cols[k].name == name
    ensures k < 0 ==> forall j :: 0 <= j < |cols| ==> cols[j].name != name
  {
    if cols == [] then -1
    else if cols[0].name == name then 0
    else
      var k := FirstNamed(cols[1..], name);
      assert forall j :: 1 <= j < |cols| ==> cols[j] == cols[1..][j - 1];
      if k < 0 then -1 else k + 1
  }

  /**
   * `build_group_label`: the loop over the string columns in column order,
   * each filling the rows still empty with a cell that mentions a group,
   * then blanks forward-filled.
   */
  method BuildGroupLabel(cols: seq<Column>, n: nat) returns (groupLabel: seq<Option<string>>)
    requires Rectangular(cols, n)
    ensures groupLabel == FFill(RawGroupLabel(cols, n))
  {
    var u := FirstNamed(cols, UnnamedIndex);
    var raw: seq<Option<string>>;
    if u >= 0 {
      raw := cols[u].cells;
    } else {
      var scan: seq<string> := seq(n, i => "");
      var k := 0;
      while k < |cols|
        invariant 0 <= k <= |cols|
        invariant Rectangular(cols[..k], n)
        invariant scan == ScanLabels(cols[..k], n)
      {
        assert cols[..k + 1][..k] == cols[..k];
        if cols[k].isString {
          scan := MaskStep(scan, cols[k]);
        }
        k := k + 1;
      }
      assert cols[..k] == cols;
      raw := seq(n, i requires 0 <= i < n => Some(scan[i]));
    }
    groupLabel := FFill(raw);
  }

  // ---------- build_treatment_indicator (lines 107-112) ----------

  function TreatFromText(v: string): Option<int> {
    if Contains(Lower(v), "control") then Some(0)
    else if Contains(Lower(v), "trat") then Some(1)
    else None
  }

  /**
   * The indicator as written: for an NA label `str.contains` yields NA, and
   * `Series.mask` fills an NA condition so that the value is replaced, first
   * by 1 and then by 0; an NA label therefore becomes control.
   */
  function TreatAsWritten(groupLabel: Option<string>): (r: Option<int>)
    ensures groupLabel.None? ==> r == Some(0)
    ensures groupLabel.Some? ==> r == TreatFromText(groupLabel.value)
  {
    if groupLabel.None? then Some(0) else TreatFromText(groupLabel.value)
  }

  /**
   * The intended indicator: 0 for a label mentioning "control" (even with
   * "trat"), 1 for one mentioning only "trat", missing otherwise and for a
   * missing label.
   */
  function Treat(groupLabel: Option<string>): (r: Option<int>)
    ensures r == Some(0) <==> groupLabel.Some? && Contains(Lower(groupLabel.value), "control")
    ensures r == Some(1) <==> groupLabel.Some? && !Contains(Lower(groupLabel.value), "control") && Contains(Lower(groupLabel.value), "trat")
    ensures r.None? <==> groupLabel.None? || (!Contains(Lower(groupLabel.value), "control") && !Contains(Lower(groupLabel.value), "trat"))
  {
    if groupLabel.None? then None else TreatFromText(groupLabel.value)
  }

  /**
   * Rows before the first labelled row keep a missing label after the
   * forward fill; as written they are counted as control, while the intended
   * indicator leaves them out.
   */
  lemma LeadingUnlabelledRowsBecomeControl(s: seq<Option<string>>, i: nat)
    requires i < |s| && forall j :: 0 <= j <= i ==> Blank(s[j])
    ensures TreatAsWritten(FFill(s)[i]) == Some(0)
    ensures Treat(FFill(s)[i]).None?
  {
    FFillNearest(s, i);
  }

  /** The two indicators agree on every present label. */
  lemma TreatAgreesOnLabels(v: string)
    ensures TreatAsWritten(Some(v)) == Treat(Some(v))
  {
  }

  // ---------- pattern_columns and gk_cols (lines 119-125, 157-160) ----------

  predicate IsPatternColumn(c: string, suffix: string) {
    Contains(Lower(c), "p_blue") && EndsWith(Lower(c), "_" + Lower(suffix))
  }

  /** `pattern_columns`: exactly the matching columns, in their original order. */
  function PatternColumns(columns: seq<string>, suffix: string): (r: seq<string>)
    ensures forall c :: c in r <==> c in columns && IsPatternColumn(c, suffix)
    ensures IsSubsequence(r, columns)
  {
    Filter(columns, (c: string) => IsPatternColumn(c, suffix))
  }

  /** No column belongs to the patterns of two different one-letter suffixes (A, B, C, D). */
  lemma PatternColumnsDisjoint(columns: seq<string>, s1: string, s2: string, c: string)
    requires |s1| == 1 && |s2| == 1 && LowerChar(s1[0]) != LowerChar(s2[0])
    ensures !(c in PatternColumns(columns, s1) && c in PatternColumns(columns, s2))
  {
    if c in PatternColumns(columns, s1) && c in PatternColumns(columns, s2) {
      LastOfSuffix(Lower(c), "_" + Lower(s1));
      LastOfSuffix(Lower(c), "_" + Lower(s2));
      assert false;
    }
  }

  lemma LastOfSuffix(s: string, suffix: string)
    requires EndsWith(s, suffix) && |suffix| >= 1
    ensures s[|s| - 1] == suffix[|suffix| - 1]
  {
    assert s[|s| - |suffix|..][|suffix| - 1] == s[|s| - 1];
  }

  const GkPrefix := "TESIS_TOTAL_C_1_player_gk_"

  /** The item columns summed into `gk_ok_total`, in column order. */
  function GkColumns(columns: seq<string>): (r: seq<string>)
    ensures forall c :: c in r <==> c in columns && StartsWith(c, GkPrefix) && EndsWith(c, "_ok")
    ensures IsSubsequence(r, columns)
  {
    Filter(columns, (c: string) => StartsWith(c, GkPrefix) && EndsWith(c, "_ok"))
  }

  // ---------- mujer and the sample filters (lines 136-138, 153-155, 178-179) ----------

  /** `mujer`: missing when the sex is missing, else 1 exactly for "female" or "mujer" in any ASCII case. */
  function Mujer(sex: Option<string>): (r: Option<int>)
    ensures r.None? <==> sex.None?
    ensures r == Some(1) <==> sex.Some? && (Lower(sex.value) == "female" || Lower(sex.value) == "mujer")
    ensures r.Some? ==> r.value in {0, 1}
  {
    if sex.None? then None
    else if Lower(sex.value) in {"female", "mujer"} then Some(1) else Some(0)
  }

  const IdColumn := "participant_id_in_session"
  const MissingIdMessage := "Falta la columna 'participant_id_in_session' en el Excel."

  /** The first step of `prepare_dataframe`: KeyError without the id column, else the rows with an id. */
  function RowsWithId(columns: seq<string>, idPresent: seq<bool>): (r: Result<seq<nat>, string>)
    ensures r.Failure? <==> IdColumn !in columns
    ensures r.Failure? ==> r.error == MissingIdMessage
    ensures r.Success? ==> forall i :: i in r.value <==> 0 <= i < |idPresent| && idPresent[i]
    ensures r.Success? ==> forall a, b :: 0 <= a < b < |r.value| ==> r.value[a] < r.value[b]
  {
    if IdColumn !in columns then Failure(MissingIdMessage) else Success(IndicesWhere(idPresent))
  }

  /** One prepared row as the final filter sees it. */
  datatype Observation = Observation(pA: Option<real>, pD: Option<real>, treat: Option<int>)

  predicate InSample(o: Observation) {
    o.pA.Some? && o.pD.Some? && o.treat.Some? && o.treat.value in {0, 1}
  }

  /** The analysis sample: rows with pA, pD and treat present, then treat in {0, 1}. */
  function AnalysisSample(obs: seq<Observation>): (r: seq<Observation>)
    ensures r == Filter(obs, InSample)
    ensures forall o :: o in r <==> o in obs && InSample(o)
    ensures IsSubsequence(r, obs)
  {
    var isComplete := (o: Observation) => o.pA.Some? && o.pD.Some? && o.treat.Some?;
    var isBinary := (o: Observation) => o.treat.Some? && o.treat.value in {0, 1};
    var complete := Filter(obs, isComplete);
    FilterThenFilter(obs, isComplete, isBinary, InSample);
    Filter(complete, isBinary)
  }

  /** With the intended indicator the second filter keeps every complete row. */
  lemma TreatIsBinary(groupLabel: Option<string>)
    ensures Treat(groupLabel).Some? ==> Treat(groupLabel).value in {0, 1}
  {
  }

  // ---------- model file names (line 301) ----------

  /** `name.lower().replace(" ", "_").replace("+", "mas")`. */
  function NameSlug(name: string): (r: string)
    ensures ' ' !in r && '+' !in r
    ensures forall i :: 0 <= i < |r| ==> !IsAsciiUpper(r[i])
  {
    var lowered := Lower(name);
    var spaced := ReplaceChar(lowered, ' ', "_");
    var r := ReplaceChar(spaced, '+', "mas");
    assert forall c :: c in lowered ==> !IsAsciiUpper(c);
    assert forall c :: c in r ==> c in lowered || c in "_" || c in "mas";
    r
  }

  lemma {:induction false} ReplaceCharAbsent(s: string, c: char, repl: string)
    requires c !in s
    ensures ReplaceChar(s, c, repl) == s
  {
    if s != [] {
      ReplaceCharAbsent(s[1..], c, repl);
      assert s == [s[0]] + s[1..];
    }
  }

  /** A slug is its own slug. */
  lemma NameSlugIdempotent(name: string)
    ensures NameSlug(NameSlug(name)) == NameSlug(name)
  {
    var r := NameSlug(name);
    assert Lower(r) == r;
    ReplaceCharAbsent(r, ' ', "_");
    ReplaceCharAbsent(r, '+', "mas");
  }
}
