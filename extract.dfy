/** The field extractors of the parser module: `_find_empregado_col`,
    `_extract_datas_from_cols`, `_extract_ultima_remun_from_block` and `_extract_indicadores`. */
module Extract {
  import opened Common
  import opened Chars
  import opened Patterns

  // ---------------------------------------------------------------------------
  // Occurrences of a fixed pattern in a sequence of strings, in document order
  // ---------------------------------------------------------------------------

  /** Occurrence `a` (string index, position) comes before occurrence `b` in document order. */
  predicate Before(a: (nat, nat), b: (nat, nat))
  {
    a.0 < b.0 || (a.0 == b.0 && a.1 < b.1)
  }

  /** `pat` matches at position `p` of string `k` of `lines`. */
  predicate Matches(pat: Pattern, lines: seq<string>, k: nat, p: nat)
  {
    k < |lines| && p <= |lines[k]| && MatchAt(pat, lines[k], p).Some?
  }

  /** Every match of `pat` in `lines` as (string index, position), in document order. */
  function Occurrences(pat: Pattern, lines: seq<string>): (os: seq<(nat, nat)>)
    requires IsFixed(pat)
    ensures forall n :: 0 <= n < |os| ==> Matches(pat, lines, os[n].0, os[n].1) && os[n].1 + Width(pat) <= |lines[os[n].0]|
    ensures forall n, m :: 0 <= n < m < |os| ==> Before(os[n], os[m])
  {
    if lines == [] then []
    else
      var k := |lines| - 1;
      var ps := MatchPositions(pat, lines[k], 0);
      Occurrences(pat, lines[..k]) + seq(|ps|, j requires 0 <= j < |ps| => (k, ps[j]))
  }

  /** No occurrence is missed. */
  lemma {:induction false} OccurrencesComplete(pat: Pattern, lines: seq<string>, k: nat, p: nat)
    requires IsFixed(pat) && Matches(pat, lines, k, p)
    ensures (k, p) in Occurrences(pat, lines)
  {
    var n := |lines| - 1;
    var ps := MatchPositions(pat, lines[n], 0);
    var tail := seq(|ps|, j requires 0 <= j < |ps| => (n, ps[j]));
    assert Occurrences(pat, lines) == Occurrences(pat, lines[..n]) + tail;
    if k == n {
      MatchPositionsComplete(pat, lines[n], 0, p);
      var j :| 0 <= j < |ps| && ps[j] == p;
      assert tail[j] == (k, p);
    } else {
      assert lines[..n][k] == lines[k];
      OccurrencesComplete(pat, lines[..n], k, p);
    }
  }

  /** The text of each match of `pat` in `lines`, in document order: the list that a loop
      calling `findall` on each string and extending one list builds. */
  function Texts(pat: Pattern, lines: seq<string>): seq<string>
    requires IsFixed(pat)
  {
    if lines == [] then [] else Texts(pat, lines[..|lines| - 1]) + FindAll(pat, lines[|lines| - 1])
  }

  /** The texts of the flagged lines, when the matches of each line are known in advance. */
  lemma {:induction false} TextsPick(pat: Pattern, flags: seq<bool>, ms: seq<seq<string>>, ls: seq<string>, lo: nat, hi: nat)
    requires IsFixed(pat) && hi <= |flags| && hi <= |ms| && hi <= |ls|
    requires forall j :: lo <= j < hi ==> ms[j] == FindAll(pat, ls[j])
    ensures Concat(Pick(flags, ms, lo, hi)) == Texts(pat, Pick(flags, ls, lo, hi))
  {
    if hi > lo {
      TextsPick(pat, flags, ms, ls, lo, hi - 1);
      var before, lines := Pick(flags, ms, lo, hi - 1), Pick(flags, ls, lo, hi - 1);
      if flags[hi - 1] {
        assert Pick(flags, ms, lo, hi) == before + [ms[hi - 1]];
        assert Pick(flags, ls, lo, hi) == lines + [ls[hi - 1]];
        assert (before + [ms[hi - 1]])[..|before|] == before;
        assert Concat(before + [ms[hi - 1]]) == Concat(before) + ms[hi - 1];
        assert (lines + [ls[hi - 1]])[..|lines|] == lines;
        assert Texts(pat, lines + [ls[hi - 1]]) == Texts(pat, lines) + FindAll(pat, ls[hi - 1]);
      } else {
        assert Pick(flags, ms, lo, hi) == before + [] == before;
        assert Pick(flags, ls, lo, hi) == lines + [] == lines;
      }
    }
  }

  /** There is one text per occurrence. */
  lemma {:induction false} TextsCount(pat: Pattern, lines: seq<string>)
    requires IsFixed(pat)
    ensures |Texts(pat, lines)| == |Occurrences(pat, lines)|
  {
    if lines != [] {
      TextsCount(pat, lines[..|lines| - 1]);
    }
  }

  /** Text `n` is the substring at occurrence `n`. */
  lemma {:induction false} TextAt(pat: Pattern, lines: seq<string>, n: nat)
    requires IsFixed(pat) && n < |Texts(pat, lines)|
    ensures n < |Occurrences(pat, lines)|
    ensures var o := Occurrences(pat, lines)[n]; Texts(pat, lines)[n] == lines[o.0][o.1..o.1 + Width(pat)]
  {
    var k := |lines| - 1;
    var init := lines[..k];
    TextsCount(pat, init);
    TextsCount(pat, lines);
    var prevT, prevO := Texts(pat, init), Occurrences(pat, init);
    var ps := MatchPositions(pat, lines[k], 0);
    assert Texts(pat, lines) == prevT + FindAll(pat, lines[k]);
    assert Occurrences(pat, lines) == prevO + seq(|ps|, j requires 0 <= j < |ps| => (k, ps[j]));
    if n < |prevT| {
      TextAt(pat, init, n);
      assert init[prevO[n].0] == lines[prevO[n].0];
    }
  }

  /** The texts are the matched substrings at the occurrences, one for one. */
  lemma TextsAt(pat: Pattern, lines: seq<string>)
    requires IsFixed(pat)
    ensures |Texts(pat, lines)| == |Occurrences(pat, lines)|
    ensures forall n :: 0 <= n < |Texts(pat, lines)| ==>
      var o := Occurrences(pat, lines)[n]; Texts(pat, lines)[n] == lines[o.0][o.1..o.1 + Width(pat)]
  {
    TextsCount(pat, lines);
    forall n | 0 <= n < |Texts(pat, lines)|
      ensures var o := Occurrences(pat, lines)[n]; Texts(pat, lines)[n] == lines[o.0][o.1..o.1 + Width(pat)]
    {
      TextAt(pat, lines, n);
    }
  }

  /** The first occurrence comes before every other match. */
  lemma FirstOccurrence(pat: Pattern, lines: seq<string>, k: nat, p: nat)
    requires IsFixed(pat) && Matches(pat, lines, k, p)
    ensures |Occurrences(pat, lines)| > 0
    ensures var o := Occurrences(pat, lines)[0]; o == (k, p) || Before(o, (k, p))
  {
    OccurrencesComplete(pat, lines, k, p);
  }

  /** The last occurrence comes after every other match. */
  lemma LastOccurrence(pat: Pattern, lines: seq<string>, k: nat, p: nat)
    requires IsFixed(pat) && Matches(pat, lines, k, p)
    ensures |Occurrences(pat, lines)| > 0
    ensures var os := Occurrences(pat, lines); os[|os| - 1] == (k, p) || Before((k, p), os[|os| - 1])
  {
    OccurrencesComplete(pat, lines, k, p);
  }

  /** Nothing matches strictly between two consecutive occurrences. */
  lemma NothingBetween(pat: Pattern, lines: seq<string>, n: nat, k: nat, p: nat)
    requires IsFixed(pat) && n + 1 < |Occurrences(pat, lines)|
    requires Matches(pat, lines, k, p)
    ensures var os := Occurrences(pat, lines); !(Before(os[n], (k, p)) && Before((k, p), os[n + 1]))
  {
    OccurrencesComplete(pat, lines, k, p);
    SortedGap(Occurrences(pat, lines), n, (k, p));
  }

  /** In a list sorted in document order, no element lies strictly between two neighbours. */
  lemma SortedGap(os: seq<(nat, nat)>, n: nat, x: (nat, nat))
    requires forall a, b :: 0 <= a < b < |os| ==> Before(os[a], os[b])
    requires n + 1 < |os| && x in os
    ensures !(Before(os[n], x) && Before(x, os[n + 1]))
  {
    var j :| 0 <= j < |os| && os[j] == x;
    if j < n {
      assert Before(os[j], os[n]);
    } else if j > n + 1 {
      assert Before(os[n + 1], os[j]);
    }
  }

  // ---------------------------------------------------------------------------
  // _find_empregado_col
  // ---------------------------------------------------------------------------

  /** The whole word "Empregado", in any case, occurs in `c`. */
  predicate HasEmployeeWord(c: string)
  {
    exists p :: 0 <= p <= |c| && MatchAt(Employee, c, p).Some?
  }

  /** `_find_empregado_col(cols)`: whether some column holds the word "Empregado". */
  method FindEmpregadoCol(cols: seq<string>) returns (found: bool)
    ensures found <==> exists k :: 0 <= k < |cols| && HasEmployeeWord(cols[k])
  {
    for i := 0 to |cols|
      invariant forall k :: 0 <= k < i ==> !HasEmployeeWord(cols[k])
    {
      if Search(Employee, cols[i], 0).Some? {
        return true;
      }
    }
    return false;
  }

  // ---------------------------------------------------------------------------
  // _extract_datas_from_cols
  // ---------------------------------------------------------------------------

  /** `_extract_datas_from_cols(cols)`: the first and the second full date found scanning the
      columns in order, each None when there are fewer. */
  method ExtractDatasFromCols(cols: seq<string>) returns (dataInicio: Option<string>, dataFim: Option<string>)
    ensures dataInicio == Nth(Texts(Date, cols), 0)
    ensures dataFim == Nth(Texts(Date, cols), 1)
  {
    var datas: seq<string> := [];
    for i := 0 to |cols|
      invariant datas == Texts(Date, cols[..i])
    {
      assert cols[..i + 1][..i] == cols[..i];
      datas := datas + FindAll(Date, cols[i]);
    }
    assert cols[..|cols|] == cols;
    dataInicio := if |datas| >= 1 then Some(datas[0]) else None;
    dataFim := if |datas| >= 2 then Some(datas[1]) else None;
  }

  /** The start date is the text of the earliest date in the columns, and there is one
      exactly when some column holds a date. */
  lemma DataInicioIsFirst(cols: seq<string>)
    ensures |Texts(Date, cols)| == |Occurrences(Date, cols)|
    ensures Nth(Texts(Date, cols), 0).Some? <==> exists k: nat, p: nat :: Matches(Date, cols, k, p)
    ensures Nth(Texts(Date, cols), 0).Some? ==>
      var o := Occurrences(Date, cols)[0];
      && Nth(Texts(Date, cols), 0).value == cols[o.0][o.1..o.1 + 10]
      && forall k: nat, p: nat :: Matches(Date, cols, k, p) ==> o == (k, p) || Before(o, (k, p))
  {
    TextsAt(Date, cols);
    var os := Occurrences(Date, cols);
    forall k: nat, p: nat | Matches(Date, cols, k, p) ensures |os| > 0 && (os[0] == (k, p) || Before(os[0], (k, p))) {
      FirstOccurrence(Date, cols, k, p);
    }
  }

  /** The end date is the text of the date that comes next after the start date, with no
      date between the two. */
  lemma DataFimIsSecond(cols: seq<string>)
    ensures |Texts(Date, cols)| == |Occurrences(Date, cols)|
    ensures Nth(Texts(Date, cols), 1).Some? ==>
      var os := Occurrences(Date, cols);
      && Nth(Texts(Date, cols), 1).value == cols[os[1].0][os[1].1..os[1].1 + 10]
      && Before(os[0], os[1])
      && forall k: nat, p: nat :: Matches(Date, cols, k, p) ==> !(Before(os[0], (k, p)) && Before((k, p), os[1]))
  {
    TextsAt(Date, cols);
    var os := Occurrences(Date, cols);
    if |os| >= 2 {
      forall k: nat, p: nat | Matches(Date, cols, k, p) ensures !(Before(os[0], (k, p)) && Before((k, p), os[1])) {
        NothingBetween(Date, cols, 0, k, p);
      }
    }
  }

  // ---------------------------------------------------------------------------
  // _extract_ultima_remun_from_block
  // ---------------------------------------------------------------------------

  /** `_extract_ultima_remun_from_block(block)`: the last month/year in the block, if any. */
  method ExtractUltimaRemunFromBlock(block: seq<string>) returns (r: Option<string>)
    ensures r == Last(Texts(MonthYear, block))
  {
    var meses: seq<string> := [];
    for i := 0 to |block|
      invariant meses == Texts(MonthYear, block[..i])
    {
      assert block[..i + 1][..i] == block[..i];
      meses := meses + FindAll(MonthYear, block[i]);
    }
    assert block[..|block|] == block;
    r := if meses != [] then Some(meses[|meses| - 1]) else None;
  }

  /** The last month/year of a block is the text of its latest `MM/AAAA` match in document
      order; there is one exactly when some line of the block has a match. */
  lemma UltimaIsLast(block: seq<string>)
    ensures |Texts(MonthYear, block)| == |Occurrences(MonthYear, block)|
    ensures Last(Texts(MonthYear, block)).Some? <==> exists k: nat, p: nat :: Matches(MonthYear, block, k, p)
    ensures Last(Texts(MonthYear, block)).Some? ==>
      var os := Occurrences(MonthYear, block); var o := os[|os| - 1];
      && Last(Texts(MonthYear, block)).value == block[o.0][o.1..o.1 + 7]
      && forall k: nat, p: nat :: Matches(MonthYear, block, k, p) ==> o == (k, p) || Before((k, p), o)
  {
    TextsAt(MonthYear, block);
    var os := Occurrences(MonthYear, block);
    forall k: nat, p: nat | Matches(MonthYear, block, k, p) ensures |os| > 0 && (os[|os| - 1] == (k, p) || Before((k, p), os[|os| - 1])) {
      LastOccurrence(MonthYear, block, k, p);
    }
  }

  // ---------------------------------------------------------------------------
  // _extract_indicadores
  // ---------------------------------------------------------------------------

  /** The test `len(c) <= 6 and c.isupper()`. */
  predicate IsIndicator(c: string)
  {
    |c| <= 6 && IsUpperStr(c)
  }

  /** The columns that pass the indicator test, in order, repeats included. */
  function Indicadores(cols: seq<string>): seq<string>
  {
    if cols == [] then []
    else Indicadores(cols[..|cols| - 1]) + (if IsIndicator(cols[|cols| - 1]) then [cols[|cols| - 1]] else [])
  }

  /** The positions of the columns that pass the indicator test, in increasing order. */
  function IndicatorPositions(cols: seq<string>): (idx: seq<nat>)
    ensures forall m :: 0 <= m < |idx| ==> idx[m] < |cols| && IsIndicator(cols[idx[m]])
    ensures forall m, n :: 0 <= m < n < |idx| ==> idx[m] < idx[n]
    ensures forall j :: 0 <= j < |cols| && IsIndicator(cols[j]) ==> j in idx
  {
    if cols == [] then []
    else
      var k := |cols| - 1;
      var rest := IndicatorPositions(cols[..k]);
      assert forall m :: 0 <= m < |rest| ==> cols[..k][rest[m]] == cols[rest[m]];
      assert forall j :: 0 <= j < k ==> cols[..k][j] == cols[j];
      rest + (if IsIndicator(cols[k]) then [k] else [])
  }

  /** The indicators are exactly the passing columns, one entry per passing column, in column
      order: an order-preserving subsequence of the columns with no duplicate removed. */
  lemma {:induction false} IndicadoresAt(cols: seq<string>)
    ensures |Indicadores(cols)| == |IndicatorPositions(cols)|
    ensures forall m :: 0 <= m < |Indicadores(cols)| ==> Indicadores(cols)[m] == cols[IndicatorPositions(cols)[m]]
    ensures forall m :: 0 <= m < |Indicadores(cols)| ==> |Indicadores(cols)[m]| <= 6 && IsUpperStr(Indicadores(cols)[m])
  {
    if cols != [] {
      var k := |cols| - 1;
      IndicadoresAt(cols[..k]);
      var prev, rest := Indicadores(cols[..k]), IndicatorPositions(cols[..k]);
      var ins, ps := Indicadores(cols), IndicatorPositions(cols);
      assert ins == prev + (if IsIndicator(cols[k]) then [cols[k]] else []);
      assert ps == rest + (if IsIndicator(cols[k]) then [k] else []);
      forall m | 0 <= m < |ins| ensures ins[m] == cols[ps[m]] {
        if m < |prev| {
          assert ins[m] == prev[m] && ps[m] == rest[m];
          assert cols[..k][rest[m]] == cols[rest[m]];
        }
      }
    }
  }

  /** `_extract_indicadores(cols)`. */
  method ExtractIndicadores(cols: seq<string>) returns (out: seq<string>)
    ensures out == Indicadores(cols)
  {
    out := [];
    for i := 0 to |cols|
      invariant out == Indicadores(cols[..i])
    {
      assert cols[..i + 1][..i] == cols[..i];
      if |cols[i]| <= 6 && IsUpperStr(cols[i]) {
        out := out + [cols[i]];
      }
    }
    assert cols[..|cols|] == cols;
  }
}
