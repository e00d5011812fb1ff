/**
 * The column and row rules of resultados_tesis_section6_fix.py: the
 * canonical form of column names, the search for a column by substrings,
 * the per-item hit indicator, the fixed 15/15/21/12 segmentation of rows
 * into groups and treatment, the per-row item counts and the valid-row
 * filter. The regression models and descriptive statistics are not modelled.
 */
module Section6 {
  import opened Wrappers
  import opened Seqs
  import opened Text

  // ---------- canon (lines 30-33) ----------

  predicate IsCanonChar(c: char) {
    '0' <= c <= '9' || 'a' <= c <= 'z' || c == '_'
  }

  predicate NoDoubleUnderscore(s: string) {
    forall i :: 0 <= i < |s| - 1 ==> !(s[i] == '_' && s[i + 1] == '_')
  }

  /** Drops the leading characters that are not ASCII letters or digits. */
  function DropRun(s: string): (r: string)
    ensures r == [] || IsAsciiAlnum(r[0])
    ensures |r| <= |s| && r == s[|s| - |r|..]
  {
    if s != [] && !IsAsciiAlnum(s[0]) then DropRun(s[1..]) else s
  }

  /** The ASCII letters and digits of `s`, in order. */
  function Alnums(s: string): string {
    if s == [] then []
    else (if IsAsciiAlnum(s[0]) then [s[0]] else []) + Alnums(s[1..])
  }

  lemma AlnumsCons(x: char, s: string)
    ensures Alnums([x] + s) == (if IsAsciiAlnum(x) then [x] else []) + Alnums(s)
  {
    assert ([x] + s)[1..] == s;
  }

  lemma {:induction false} AlnumsAppend(a: string, b: string)
    ensures Alnums(a + b) == Alnums(a) + Alnums(b)
  {
    if a == [] {
      assert a + b == b;
    } else {
      AlnumsAppend(a[1..], b);
      assert a + b == [a[0]] + (a[1..] + b);
      AlnumsCons(a[0], a[1..] + b);
      assert a == [a[0]] + a[1..];
      AlnumsCons(a[0], a[1..]);
    }
  }

  lemma {:induction false} DropRunKeepsAlnum(s: string)
    ensures Alnums(DropRun(s)) == Alnums(s)
  {
    if s != [] && !IsAsciiAlnum(s[0]) {
      DropRunKeepsAlnum(s[1..]);
    }
  }

  /**
   * `re.sub(r"[^0-9a-zA-Z]+", "_", s)`: each maximal run of other characters
   * becomes one underscore; letters and digits stay, in order.
   */
  function ReplaceRuns(s: string): (r: string)
    ensures AlnumOrUnderscore(r)
    ensures NoDoubleUnderscore(r)
    ensures r != [] && r[0] == '_' ==> s != [] && !IsAsciiAlnum(s[0])
    ensures Alnums(r) == Alnums(s)
    decreases |s|
  {
    if s == [] then []
    else if IsAsciiAlnum(s[0]) then
      var rest := ReplaceRuns(s[1..]);
      assert ([s[0]] + rest)[1..] == rest;
      [s[0]] + rest
    else
      var rest := ReplaceRuns(DropRun(s[1..]));
      DropRunKeepsAlnum(s[1..]);
      assert ("_" + rest)[1..] == rest;
      "_" + rest
  }

  function TrimLeft(s: string, c: char): (r: string)
    ensures r == [] || r[0] != c
    ensures |r| <= |s| && r == s[|s| - |r|..]
    ensures forall i :: 0 <= i < |s| - |r| ==> s[i] == c
  {
    if s != [] && s[0] == c then TrimLeft(s[1..], c) else s
  }

  function TrimRight(s: string, c: char): (r: string)
    ensures r == [] || r[|r| - 1] != c
    ensures |r| <= |s| && r == s[..|r|]
    ensures forall i :: |r| <= i < |s| ==> s[i] == c
  {
    if s != [] && s[|s| - 1] == c then TrimRight(s[..|s| - 1], c) else s
  }

  lemma {:induction false} UnderscoresOnly(s: string)
    requires forall i :: 0 <= i < |s| ==> s[i] == '_'
    ensures Alnums(s) == []
  {
    if s != [] {
      UnderscoresOnly(s[1..]);
    }
  }

  predicate AlnumOrUnderscore(s: string) {
    forall i :: 0 <= i < |s| ==> IsAsciiAlnum(s[i]) || s[i] == '_'
  }

  lemma SliceKeepsShape(s: string, a: int, b: int)
    requires 0 <= a <= b <= |s|
    ensures AlnumOrUnderscore(s) ==> AlnumOrUnderscore(s[a..b])
    ensures NoDoubleUnderscore(s) ==> NoDoubleUnderscore(s[a..b])
  {
    assert forall i :: 0 <= i < b - a ==> s[a..b][i] == s[a + i];
  }

  lemma {:induction false} TrimLeftKeepsAlnums(s: string)
    ensures Alnums(TrimLeft(s, '_')) == Alnums(s)
  {
    if s != [] && s[0] == '_' {
      TrimLeftKeepsAlnums(s[1..]);
    }
  }

  lemma {:induction false} TrimRightKeepsAlnums(s: string)
    ensures Alnums(TrimRight(s, '_')) == Alnums(s)
  {
    if s != [] && s[|s| - 1] == '_' {
      var init := s[..|s| - 1];
      TrimRightKeepsAlnums(init);
      AlnumsAppend(init, "_");
      assert s == init + "_";
    }
  }

  /**
   * `s.strip("_")`: no underscore at either end; letters and digits, the
   * character set and the absence of double underscores are kept.
   */
  function StripUnderscores(s: string): (r: string)
    ensures r == [] || (r[0] != '_' && r[|r| - 1] != '_')
    ensures Alnums(r) == Alnums(s)
    ensures AlnumOrUnderscore(s) ==> AlnumOrUnderscore(r)
    ensures NoDoubleUnderscore(s) ==> NoDoubleUnderscore(r)
  {
    var t := TrimLeft(s, '_');
    var r := TrimRight(t, '_');
    assert r == [] || (r[0] != '_' && r[|r| - 1] != '_') by {
      assert r != [] ==> r[0] == t[0];
    }
    assert Alnums(r) == Alnums(s) by {
      TrimLeftKeepsAlnums(s);
      TrimRightKeepsAlnums(t);
    }
    assert (AlnumOrUnderscore(s) ==> AlnumOrUnderscore(r)) && (NoDoubleUnderscore(s) ==> NoDoubleUnderscore(r)) by {
      SliceKeepsShape(s, |s| - |t|, |s|);
      SliceKeepsShape(t, 0, |r|);
    }
    r
  }

  lemma {:induction false} LowerKeepsAlnum(s: string)
    ensures Alnums(Lower(s)) == Lower(Alnums(s))
  {
    if s != [] {
      LowerKeepsAlnum(s[1..]);
      assert Lower(s)[1..] == Lower(s[1..]);
      var head := if IsAsciiAlnum(s[0]) then [s[0]] else [];
      assert Lower(head + Alnums(s[1..])) == Lower(head) + Lower(Alnums(s[1..]));
    }
  }

  /** `re.sub(r"_+", "_", s)`. */
  function CollapseUnderscores(s: string): (r: string)
    ensures NoDoubleUnderscore(s) ==> r == s
  {
    if |s| >= 2 && s[0] == '_' && s[1] == '_' then CollapseUnderscores(s[1..])
    else if s == [] then []
    else [s[0]] + CollapseUnderscores(s[1..])
  }

  ghost predicate IsCanonical(s: string) {
    && (forall i :: 0 <= i < |s| ==> IsCanonChar(s[i]))
    && (s == [] || (s[0] != '_' && s[|s| - 1] != '_'))
    && NoDoubleUnderscore(s)
  }

  /**
   * `canon`: only digits, lower-case ASCII letters and single underscores,
   * never an underscore at either end, and the letters and digits of the
   * name kept in order, lower-cased.
   */
  function Canon(col: string): (r: string)
    ensures IsCanonical(r)
    ensures Alnums(r) == Lower(Alnums(col))
  {
    var replaced := ReplaceRuns(col);
    var stripped := StripUnderscores(replaced);
    var lowered := Lower(stripped);
    LowerKeepsAlnum(stripped);
    LowerKeepsCanonicalShape(stripped);
    CollapseUnderscores(lowered)
  }

  /** Lower-casing a name of underscores, letters and digits keeps its underscores where they were. */
  lemma LowerKeepsCanonicalShape(s: string)
    requires AlnumOrUnderscore(s) && NoDoubleUnderscore(s) && (s == [] || (s[0] != '_' && s[|s| - 1] != '_'))
    ensures IsCanonical(Lower(s))
  {
    var l := Lower(s);
    forall i | 0 <= i < |s|
      ensures IsCanonChar(l[i]) && (l[i] == '_' <==> s[i] == '_')
    {
      assert l[i] == LowerChar(s[i]);
    }
  }

  /** The second substitution of `canon` never changes anything: the first already leaves no double underscore. */
  lemma CanonCollapseIsIdentity(col: string)
    ensures var lowered := Lower(StripUnderscores(ReplaceRuns(col)));
      NoDoubleUnderscore(lowered) && Canon(col) == lowered
  {
    LowerKeepsCanonicalShape(StripUnderscores(ReplaceRuns(col)));
  }

  lemma {:induction false} ReplaceRunsFixed(s: string)
    requires AlnumOrUnderscore(s) && NoDoubleUnderscore(s)
    ensures ReplaceRuns(s) == s
    decreases |s|
  {
    if s != [] {
      var t := s[1..];
      SliceKeepsShape(s, 1, |s|);
      ReplaceRunsFixed(t);
      assert s == [s[0]] + t;
      if !IsAsciiAlnum(s[0]) {
        assert s[0] == '_';
        assert |s| == 1 || IsAsciiAlnum(s[1]) by {
          if |s| > 1 {
            assert s[1] != '_';
          }
        }
        ReplaceRunsSingleUnderscore(s);
      }
    }
  }

  /** An underscore followed by a letter or digit (or nothing) is its own one-character run. */
  lemma ReplaceRunsSingleUnderscore(s: string)
    requires s != [] && s[0] == '_' && (|s| == 1 || IsAsciiAlnum(s[1]))
    ensures ReplaceRuns(s) == "_" + ReplaceRuns(s[1..])
  {
    assert DropRun(s[1..]) == s[1..];
  }

  /** `canon(canon(s)) == canon(s)`. */
  lemma CanonIdempotent(col: string)
    ensures Canon(Canon(col)) == Canon(col)
  {
    var c := Canon(col);
    assert AlnumOrUnderscore(c);
    ReplaceRunsFixed(c);
    assert TrimLeft(c, '_') == c;
    assert TrimRight(c, '_') == c;
    assert StripUnderscores(c) == c;
    assert Lower(c) == c;
  }

  // ---------- find_col (lines 35-46) ----------

  /** `all(s in c for s in req)`. */
  predicate ContainsAll(c: string, req: seq<string>) {
    forall k :: 0 <= k < |req| ==> Contains(c, req[k])
  }

  function LowerAll(subs: seq<string>): (r: seq<string>)
    ensures |r| == |subs| && forall k :: 0 <= k < |subs| ==> r[k] == Lower(subs[k])
  {
    seq(|subs|, k requires 0 <= k < |subs| => Lower(subs[k]))
  }

  /** The first column containing every required substring and `need`, or -1. */
  function FirstMatching(columns: seq<string>, req: seq<string>, need: string): (k: int)
    ensures -1 <= k < |columns|
    ensures k >= 0 ==> ContainsAll(columns[k], req) && Contains(columns[k], need)
    ensures k >= 0 ==> forall j :: 0 <= j < k ==> !(ContainsAll(columns[j], req) && Contains(columns[j], need))
    ensures k < 0 ==> forall j :: 0 <= j < |columns| ==> !(ContainsAll(columns[j], req) && Contains(columns[j], need))
  {
    if columns == [] then -1
    else if ContainsAll(columns[0], req) && Contains(columns[0], need) then 0
    else
      var k := FirstMatching(columns[1..], req, need);
      assert forall j :: 1 <= j < |columns| ==> columns[j] == columns[1..][j - 1];
      if k < 0 then -1 else k + 1
  }

  /** The first element of `cand` containing `p`. */
  function FirstContaining(cand: seq<string>, p: string): Option<string> {
    if cand == [] then None
    else if Contains(cand[0], p) then Some(cand[0])
    else FirstContaining(cand[1..], p)
  }

  lemma {:induction false} FilterFirst(columns: seq<string>, req: seq<string>, p: string)
    ensures var cand := Filter(columns, c => ContainsAll(c, req));
      var k := FirstMatching(columns, req, p);
      FirstContaining(cand, p) == if k < 0 then None else Some(columns[k])
  {
    if columns != [] {
      FilterFirst(columns[1..], req, p);
      var k := FirstMatching(columns[1..], req, p);
      assert forall j :: 1 <= j < |columns| ==> columns[j] == columns[1..][j - 1];
      if k >= 0 {
        assert columns[1..][k] == columns[k + 1];
      }
    }
  }

  lemma EmptyAlwaysContained(c: string)
    ensures Contains(c, "")
  {
    assert StartsWith(c, "");
  }

  /**
   * `find_col`: `None` exactly when no column contains every (lower-cased)
   * substring; otherwise, with a non-empty `prefer`, the first such column
   * in column order that also contains it, and else the first such column.
   */
  function FindCol(columns: seq<string>, subs: seq<string>, prefer: Option<string>): (r: Option<string>)
    ensures var req := LowerAll(subs);
      && (r.None? <==> forall c :: c in columns ==> !ContainsAll(c, req))
      && (r.Some? ==> r.value in columns && ContainsAll(r.value, req))
      && (r.Some? && prefer.Some? && prefer.value != "" && FirstMatching(columns, req, Lower(prefer.value)) >= 0 ==>
            r.value == columns[FirstMatching(columns, req, Lower(prefer.value))])
      && (r.Some? && (prefer.None? || prefer.value == "" || FirstMatching(columns, req, Lower(prefer.value)) < 0) ==>
            r.value == columns[FirstMatching(columns, req, "")])
  {
    var req := LowerAll(subs);
    var cand := Filter(columns, c => ContainsAll(c, req));
    FilterFirst(columns, req, "");
    forall c ensures Contains(c, "") { EmptyAlwaysContained(c); }
    if cand == [] then None
    else if prefer.Some? && prefer.value != "" then
      var p := Lower(prefer.value);
      FilterFirst(columns, req, p);
      match FirstContaining(cand, p)
      case Some(c) => Some(c)
      case None => Some(cand[0])
    else Some(cand[0])
  }

  /** `find_col(df, specific) or find_col(df, general)`: the fallback search applies when the first finds nothing. */
  function ResolveColumn(columns: seq<string>, specific: seq<string>, general: seq<string>): (r: Option<string>)
    ensures FindCol(columns, specific, None).Some? && FindCol(columns, specific, None).value != "" ==> r == FindCol(columns, specific, None)
    ensures FindCol(columns, specific, None).None? || FindCol(columns, specific, None).value == "" ==> r == FindCol(columns, general, None)
  {
    var first := FindCol(columns, specific, None);
    if first.Some? && first.value != "" then first else FindCol(columns, general, None)
  }

  /**
   * When the general substrings are among the specific ones (as in
   * ["gk", "1", "resp"] and ["1", "resp"]), the resolved column is missing
   * exactly when no column contains the general substrings.
   */
  lemma ResolveColumnMissing(columns: seq<string>, specific: seq<string>, general: seq<string>)
    requires forall k :: 0 <= k < |general| ==> general[k] in specific
    ensures ResolveColumn(columns, specific, general).None? <==> FindCol(columns, general, None).None?
  {
    var rs, rg := LowerAll(specific), LowerAll(general);
    forall c | ContainsAll(c, rs) ensures ContainsAll(c, rg) {
      forall k | 0 <= k < |general| ensures Contains(c, rg[k]) {
        var m :| 0 <= m < |specific| && specific[m] == general[k];
        assert rs[m] == rg[k];
      }
    }
  }

  // ---------- build_ok (lines 48-56) ----------

  /** A cell as `pd.to_numeric(errors="coerce")` and `astype(str)` see it. */
  datatype Cell = Cell(numeric: Option<real>, text: string)

  datatype Frame = Frame(columns: seq<string>, rows: seq<map<string, Cell>>)

  ghost predicate WellFormedFrame(f: Frame) {
    forall i, c :: 0 <= i < |f.rows| && c in f.columns ==> c in f.rows[i]
  }

  /**
   * `build_ok`: from the `ok` column when it exists (1 when the value is
   * numerically 1, else 0), else from RESP == IDX as strings when both
   * exist, else missing for every row.
   */
  function BuildOk(f: Frame, okCol: Option<string>, respCol: Option<string>, idxCol: Option<string>): (r: seq<Option<int>>)
    requires WellFormedFrame(f)
    ensures |r| == |f.rows|
    ensures okCol.Some? && okCol.value in f.columns ==>
      forall i :: 0 <= i < |r| ==> r[i].Some? && (r[i] == Some(1) <==> f.rows[i][okCol.value].numeric == Some(1.0))
    ensures !(okCol.Some? && okCol.value in f.columns) && respCol.Some? && idxCol.Some?
            && respCol.value in f.columns && idxCol.value in f.columns ==>
      forall i :: 0 <= i < |r| ==> r[i].Some? && (r[i] == Some(1) <==> f.rows[i][respCol.value].text == f.rows[i][idxCol.value].text)
    ensures !(okCol.Some? && okCol.value in f.columns)
            && !(respCol.Some? && idxCol.Some? && respCol.value in f.columns && idxCol.value in f.columns) ==>
      forall i :: 0 <= i < |r| ==> r[i].None?
  {
    if okCol.Some? && okCol.value in f.columns then
      seq(|f.rows|, i requires 0 <= i < |f.rows| => Some(if f.rows[i][okCol.value].numeric == Some(1.0) then 1 else 0))
    else if respCol.Some? && idxCol.Some? && respCol.value in f.columns && idxCol.value in f.columns then
      seq(|f.rows|, i requires 0 <= i < |f.rows| =>
        Some(if f.rows[i][respCol.value].text == f.rows[i][idxCol.value].text then 1 else 0))
    else
      seq(|f.rows|, i requires 0 <= i < |f.rows| => None)
  }

  /** Every indicator is 0, 1 or missing, and it is missing everywhere exactly when neither source column set exists. */
  lemma BuildOkIndicator(f: Frame, okCol: Option<string>, respCol: Option<string>, idxCol: Option<string>)
    requires WellFormedFrame(f)
    ensures var r := BuildOk(f, okCol, respCol, idxCol);
      && (forall i :: 0 <= i < |r| ==> r[i] in {None, Some(0), Some(1)})
      && (|r| > 0 ==>
            ((forall i :: 0 <= i < |r| ==> r[i].None?) <==>
             !(okCol.Some? && okCol.value in f.columns)
             && !(respCol.Some? && idxCol.Some? && respCol.value in f.columns && idxCol.value in f.columns)))
  {
    var r := BuildOk(f, okCol, respCol, idxCol);
    if |r| > 0 {
      assert r[0].None? <==>
        !(okCol.Some? && okCol.value in f.columns)
        && !(respCol.Some? && idxCol.Some? && respCol.value in f.columns && idxCol.value in f.columns);
    }
  }

  // ---------- group and treatment segmentation (lines 250-260) ----------

  const Sizes := [15, 15, 21, 12]
  const Labels := [1, 2, 3, 4]

  /** `np.cumsum([0] + sizes)`. */
  function PrefixSums(s: seq<int>): (r: seq<int>)
    ensures |r| == |s| + 1 && r[0] == 0
    ensures forall k :: 0 <= k < |s| ==> r[k + 1] == r[k] + s[k]
  {
    if s == [] then [0]
    else
      var init := PrefixSums(s[..|s| - 1]);
      init + [init[|s| - 1] + s[|s| - 1]]
  }

  /** The group of row `i`: 1 for rows 0-14, 2 for 15-29, 3 for 30-50, 4 for 51-62, missing from row 63 on. */
  function GroupOf(i: nat): Option<int> {
    if i < 15 then Some(1)
    else if i < 30 then Some(2)
    else if i < 51 then Some(3)
    else if i < 63 then Some(4)
    else None
  }

  /** `grupo_num.map({1:0, 2:0, 3:1, 4:1})`. */
  function Treatment(g: Option<int>): Option<int> {
    match g
    case Some(1) => Some(0)
    case Some(2) => Some(0)
    case Some(3) => Some(1)
    case Some(4) => Some(1)
    case _ => None
  }

  /** The first 30 rows are control, the next 33 treatment, the rest unassigned. */
  lemma TreatmentOfRow(i: nat)
    ensures Treatment(GroupOf(i)) == (if i < 30 then Some(0) else if i < 63 then Some(1) else None)
  {
  }

  /**
   * The segmentation loop of `main`: an array of `n` missing values in which
   * group g overwrites the slice [cum[g], min(cum[g+1], n)).
   */
  method Segment(n: nat) returns (grp: seq<Option<int>>)
    ensures |grp| == n
    ensures forall i :: 0 <= i < n ==> grp[i] == GroupOf(i)
  {
    var cum := PrefixSums(Sizes);
    assert cum == [0, 15, 30, 51, 63];
    var a := new Option<int>[n](_ => None);
    var g := 0;
    while g < 4
      invariant 0 <= g <= 4
      invariant forall i :: 0 <= i < n && i < cum[g] ==> a[i] == GroupOf(i)
      invariant forall i :: 0 <= i < n && i >= cum[g] ==> a[i] == None
    {
      var lo, hi := cum[g], cum[g + 1];
      if lo < n {
        var j := lo;
        var end := if hi < n then hi else n;
        while j < end
          invariant lo <= j <= end
          invariant forall i :: 0 <= i < n && i < lo ==> a[i] == GroupOf(i)
          invariant forall i :: lo <= i < j ==> a[i] == Some(Labels[g])
          invariant forall i :: 0 <= i < n && i >= j ==> a[i] == None
        {
          a[j] := Some(Labels[g]);
          j := j + 1;
        }
      }
      g := g + 1;
    }
    grp := a[..];
  }

  // ---------- per-row metrics and the valid rows (lines 285-286, 317) ----------

  /** `notna().sum(axis=1)` over a row's item indicators. */
  function NItems(items: seq<Option<int>>): (n: nat)
    ensures n <= |items|
  {
    if items == [] then 0 else (if items[0].Some? then 1 else 0) + NItems(items[1..])
  }

  /** `sum(axis=1, skipna=True)` over a row's item indicators. */
  function Hits(items: seq<Option<int>>): int {
    if items == [] then 0 else (if items[0].Some? then items[0].value else 0) + Hits(items[1..])
  }

  /** With 0/1 indicators the hits lie between zero and the number of available items. */
  lemma {:induction false} HitsBound(items: seq<Option<int>>)
    requires forall k :: 0 <= k < |items| ==> items[k] in {None, Some(0), Some(1)}
    ensures 0 <= Hits(items) <= NItems(items) <= |items|
  {
    if items != [] {
      HitsBound(items[1..]);
    }
  }

  /** The indicators of row `i` across the item columns. */
  function RowItems(okCols: seq<seq<Option<int>>>, i: nat): seq<Option<int>>
    requires forall k :: 0 <= k < |okCols| ==> i < |okCols[k]|
  {
    seq(|okCols|, k requires 0 <= k < |okCols| => okCols[k][i])
  }

  /** `df.loc[(nitems_row > 0) & grupo_num.notna()]`: the positions kept, ascending. */
  function ValidRows(okCols: seq<seq<Option<int>>>, grp: seq<Option<int>>): (r: seq<nat>)
    requires forall k :: 0 <= k < |okCols| ==> |okCols[k]| == |grp|
    ensures forall i :: i in r <==> 0 <= i < |grp| && NItems(RowItems(okCols, i)) > 0 && grp[i].Some?
    ensures forall a, b :: 0 <= a < b < |r| ==> r[a] < r[b]
  {
    IndicesWhere(seq(|grp|, i requires 0 <= i < |grp| => NItems(RowItems(okCols, i)) > 0 && grp[i].Some?))
  }

  /** A valid row lies in one of the first 63 positions and has at least one item. */
  lemma ValidRowsAssigned(okCols: seq<seq<Option<int>>>, n: nat, i: nat)
    requires forall k :: 0 <= k < |okCols| ==> |okCols[k]| == n
    requires i in ValidRows(okCols, seq(n, j requires 0 <= j < n => GroupOf(j)))
    ensures i < 63 && Treatment(GroupOf(i)).Some? && 1 <= NItems(RowItems(okCols, i)) <= |okCols|
  {
  }

  // ---------- sheet choice (line 103) ----------

  const PreferredSheet := "Hoja1"

  /** "Hoja1" when the workbook has it, else its first sheet. */
  function PickSheet(sheetNames: seq<string>): (r: string)
    requires |sheetNames| >= 1
    ensures r in sheetNames
    ensures PreferredSheet in sheetNames <==> r == PreferredSheet
  {
    if PreferredSheet in sheetNames then PreferredSheet else sheetNames[0]
  }
}
