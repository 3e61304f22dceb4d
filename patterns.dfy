/** The regular expressions of the parser module, each written as the result Python's
    backtracking matcher gives at one position, with `search` and `findall` on top. */
module Patterns {
  import opened Common
  import opened Chars
  import opened Amount

  datatype Pattern =
    | Date          // RE_DATA:      \b\d{2}/\d{2}/\d{4}\b
    | MonthYear     // RE_MES_ANO:   \b\d{2}/\d{4}\b
    | Employee      // RE_EMPREGADO: \bEmpregado\b, ignoring case
    | Remuneration  // RE_REMUN:     \b(\d{2}/\d{4})\s+(-?[\d\.\,]+)\b
    | Cpf           // RE_CPF:       \bCPF\b\s*[:\-]?\s*([\d\.\-]+), ignoring case
    | Nit           // RE_NIT:       \bNIT\b\s*[:\-]?\s*([\d\.\-]+), ignoring case

  /** A successful match: where it ends, and its capture groups ("" where a pattern has none). */
  datatype Match = Match(end: nat, group1: string, group2: string)

  /** `\d{2}/\d{2}/\d{4}` at `p`. */
  predicate DateShape(s: string, p: nat)
  {
    p + 10 <= |s|
    && IsDigit(s[p]) && IsDigit(s[p + 1]) && s[p + 2] == '/'
    && IsDigit(s[p + 3]) && IsDigit(s[p + 4]) && s[p + 5] == '/'
    && IsDigit(s[p + 6]) && IsDigit(s[p + 7]) && IsDigit(s[p + 8]) && IsDigit(s[p + 9])
  }

  /** `\d{2}/\d{4}` at `p`. */
  predicate MonthYearShape(s: string, p: nat)
  {
    p + 7 <= |s|
    && IsDigit(s[p]) && IsDigit(s[p + 1]) && s[p + 2] == '/'
    && IsDigit(s[p + 3]) && IsDigit(s[p + 4]) && IsDigit(s[p + 5]) && IsDigit(s[p + 6])
  }

  /** The class `[\d\.\-]` of the identification patterns. */
  predicate IsIdChar(c: char)
  {
    IsDigit(c) || c == '.' || c == '-'
  }

  function AmountRunEnd(s: string, i: nat): (j: nat)
    requires i <= |s|
    ensures i <= j <= |s|
    ensures forall k :: i <= k < j ==> IsAmountChar(s[k])
    ensures j == |s| || !IsAmountChar(s[j])
    decreases |s| - i
  {
    if i < |s| && IsAmountChar(s[i]) then AmountRunEnd(s, i + 1) else i
  }

  function IdRunEnd(s: string, i: nat): (j: nat)
    requires i <= |s|
    ensures i <= j <= |s|
    ensures forall k :: i <= k < j ==> IsIdChar(s[k])
    ensures j == |s| || !IsIdChar(s[j])
    decreases |s| - i
  {
    if i < |s| && IsIdChar(s[i]) then IdRunEnd(s, i + 1) else i
  }

  /** A run of `[\d\.\-]` from `i` reaches at least as far as any stretch of the class from `i`. */
  lemma IdRunCovers(s: string, i: nat, e: nat)
    requires i <= e <= |s| && forall k :: i <= k < e ==> IsIdChar(s[k])
    ensures e <= IdRunEnd(s, i)
  {
  }

  /** A run of `[\d\.\,]` from `i` reaches at least as far as any stretch of the class from `i`. */
  lemma AmountRunCovers(s: string, i: nat, e: nat)
    requires i <= e <= |s| && forall k :: i <= k < e ==> IsAmountChar(s[k])
    ensures e <= AmountRunEnd(s, i)
  {
  }

  /** The rightmost `q` with `lo < q <= hi` at which `\b` holds: where a greedy `+` loop that
      ran up to `hi` and is followed by `\b` comes to rest after backtracking. */
  function LastBoundary(s: string, lo: nat, hi: nat): (r: Option<nat>)
    requires lo <= hi <= |s|
    ensures r.Some? ==> lo < r.value <= hi && IsBoundary(s, r.value)
    ensures r.Some? ==> forall q :: r.value < q <= hi ==> !IsBoundary(s, q)
    ensures r.None? ==> forall q :: lo < q <= hi ==> !IsBoundary(s, q)
    decreases hi
  {
    if hi <= lo then None
    else if IsBoundary(s, hi) then Some(hi)
    else LastBoundary(s, lo, hi - 1)
  }

  /** `RE_REMUN` read as written: at `p`, `\b` and the month/year; then whitespace on
      `s[p+7..b]`, at least one character; then `-?[\d\.\,]+` on `s[b..q]`, followed by `\b`. */
  predicate RemunerationShape(s: string, p: nat, b: nat, q: nat)
  {
    MonthYearShape(s, p) && IsBoundary(s, p)
    && p + 7 < b <= q <= |s|
    && (forall k :: p + 7 <= k < b ==> IsSpace(s[k]))
    && IsAmountText(s[b..q]) && IsBoundary(s, q)
  }

  /** `RE_REMUN` at `p`. After the month/year, `\s+` takes the whole run of whitespace (giving
      any back cannot help, since the amount must start right after it); `-?` takes a minus sign
      when there is one; `[\d\.\,]+` takes the whole run and gives characters back until `\b`
      holds. Without the sign the amount would have to start at '-', which fails, so no other
      path succeeds. */
  function RemunerationAt(s: string, p: nat): (r: Option<Match>)
    requires p <= |s|
    ensures r.Some? ==> p < r.value.end <= |s|
    ensures r.Some? ==> MonthYearShape(s, p) && r.value.group1 == s[p..p + 7]
    ensures r.Some? ==> IsAmountText(r.value.group2)
  {
    if !(MonthYearShape(s, p) && IsBoundary(s, p)) then None
    else
      var a := p + 7;
      var b := SpaceRunEnd(s, a);
      if b == a then None
      else
        var c := if b < |s| && s[b] == '-' then b + 1 else b;
        var e := AmountRunEnd(s, c);
        match LastBoundary(s, c, e)
        case None => None
        case Some(q) =>
          assert s[c..q] == s[b..q][c - b..];
          Some(Match(q, s[p..p + 7], s[b..q]))
  }

  /** The text between the label and the group of `RE_CPF`/`RE_NIT`, `\s*[:\-]?\s*`: all
      whitespace, except at most one ':' or '-'. */
  predicate LabelGap(s: string, a: nat, g: nat)
    requires a <= g <= |s|
  {
    (forall k :: a <= k < g ==> IsSpace(s[k]))
    || exists m :: a <= m < g && (s[m] == ':' || s[m] == '-')
         && forall k :: a <= k < g && k != m ==> IsSpace(s[k])
  }

  /** `RE_CPF`/`RE_NIT` read as written, with the group on `s[g..e]`: the label `w` between
      two word boundaries, the gap, and a non-empty run of `[\d\.\-]`. */
  predicate LabelShape(s: string, p: nat, w: string, g: nat, e: nat)
    requires forall k :: 0 <= k < |w| ==> 'a' <= w[k] <= 'z'
  {
    CaseInsensitiveAt(s, p, w) && IsBoundary(s, p) && IsBoundary(s, p + |w|)
    && p + |w| <= g < e <= |s|
    && LabelGap(s, p + |w|, g)
    && forall k :: g <= k < e ==> IsIdChar(s[k])
  }

  /** Where the group of `RE_CPF`/`RE_NIT` starts after the gap that begins at `a`: past the
      separator and its whitespace when a character of `[\d\.\-]` follows them, otherwise
      right after the first run of whitespace. */
  function GroupStart(s: string, a: nat): (g: nat)
    requires a <= |s|
    ensures a <= g <= |s|
  {
    var b := SpaceRunEnd(s, a);
    var d := if b < |s| && (s[b] == ':' || s[b] == '-') then SpaceRunEnd(s, b + 1) else b;
    if d != b && d < |s| && IsIdChar(s[d]) then d else b
  }

  /** The text `GroupStart` skips is a gap of the label pattern. */
  lemma GroupStartGap(s: string, a: nat)
    requires a <= |s|
    ensures LabelGap(s, a, GroupStart(s, a))
  {
    var b := SpaceRunEnd(s, a);
    var d := if b < |s| && (s[b] == ':' || s[b] == '-') then SpaceRunEnd(s, b + 1) else b;
    if d != b && d < |s| && IsIdChar(s[d]) {
      assert a <= b < d && (s[b] == ':' || s[b] == '-')
        && forall k :: a <= k < d && k != b ==> IsSpace(s[k]);
    }
  }

  /** `RemunerationAt` succeeds exactly when `RE_REMUN` can be read at `p`; group 2 is then the
      amount `s[b..end]`, with `b` the end of the whitespace after the month/year. */
  lemma RemunerationMatches(s: string, p: nat)
    requires p <= |s|
    ensures RemunerationAt(s, p).Some? <==> exists b, q :: RemunerationShape(s, p, b, q)
    ensures RemunerationAt(s, p).Some? ==>
      p + 7 <= |s|
      && var m, b := RemunerationAt(s, p).value, SpaceRunEnd(s, p + 7);
      b <= m.end && RemunerationShape(s, p, b, m.end) && m.group2 == s[b..m.end]
  {
    if RemunerationAt(s, p).Some? {
      var m, b := RemunerationAt(s, p).value, SpaceRunEnd(s, p + 7);
      assert RemunerationShape(s, p, b, m.end);
    } else {
      forall b, q | RemunerationShape(s, p, b, q)
        ensures false
      {
        RemunerationComplete(s, p, b, q);
      }
    }
  }

  /** What `LabelAt` reports is a reading of the label pattern at `p`: its group starts where
      `GroupStart` puts it and runs to the end of the run of `[\d\.\-]`. */
  lemma LabelSound(s: string, p: nat, w: string)
    requires p <= |s|
    requires |w| > 0 && forall k :: 0 <= k < |w| ==> 'a' <= w[k] <= 'z'
    requires LabelAt(s, p, w).Some?
    ensures var m := LabelAt(s, p, w).value;
      var g := m.end - |m.group1|;
      LabelShape(s, p, w, g, m.end) && m.group1 == s[g..m.end]
      && (m.end == |s| || !IsIdChar(s[m.end]))
  {
    var g := GroupStart(s, p + |w|);
    GroupStartGap(s, p + |w|);
    var e := IdRunEnd(s, g);
    assert LabelAt(s, p, w) == Some(Match(e, s[g..e], ""));
  }

  /** `LabelAt` succeeds exactly when the label pattern can be read at `p`. */
  lemma LabelMatches(s: string, p: nat, w: string)
    requires p <= |s|
    requires |w| > 0 && forall k :: 0 <= k < |w| ==> 'a' <= w[k] <= 'z'
    ensures LabelAt(s, p, w).Some? <==> exists g, e :: LabelShape(s, p, w, g, e)
  {
    if LabelAt(s, p, w).Some? {
      LabelSound(s, p, w);
      var m := LabelAt(s, p, w).value;
      assert LabelShape(s, p, w, m.end - |m.group1|, m.end);
    } else {
      forall g, e | LabelShape(s, p, w, g, e)
        ensures false
      {
        LabelComplete(s, p, w, g, e);
      }
    }
  }

  /** Of all the places the group could start after the gap at `a`, `GroupStart` picks the
      rightmost one. */
  lemma GroupStartLast(s: string, a: nat, g: nat)
    requires a <= g < |s| && LabelGap(s, a, g) && IsIdChar(s[g])
    ensures g <= GroupStart(s, a) < |s| && IsIdChar(s[GroupStart(s, a)])
  {
    var b := SpaceRunEnd(s, a);
    assert !IsSpace(s[g]);
    if forall k :: a <= k < g ==> IsSpace(s[k]) {
      assert b == g;
    } else {
      var m :| a <= m < g && (s[m] == ':' || s[m] == '-')
             && forall k :: a <= k < g && k != m ==> IsSpace(s[k]);
      assert b == m;
      assert SpaceRunEnd(s, b + 1) == g;
    }
  }

  /** `RE_CPF` / `RE_NIT` at `p`, for the lower-case label `w`. After the label, the first `\s*`
      takes all whitespace; `[:\-]?` takes a ':' or '-' if one follows, and the second `\s*` the
      whitespace after it; the group needs a character of `[\d\.\-]` there. When that fails
      with the separator taken, the matcher drops the separator, and then only a '-' (which is
      itself in the class) can start the group. Giving back whitespace never helps. */
  function LabelAt(s: string, p: nat, w: string): (r: Option<Match>)
    requires p <= |s|
    requires |w| > 0 && forall k :: 0 <= k < |w| ==> 'a' <= w[k] <= 'z'
    ensures r.Some? ==> p < r.value.end <= |s|
    ensures r.Some? ==> CaseInsensitiveAt(s, p, w)
    ensures r.Some? ==> r.value.group1 != [] && forall k :: 0 <= k < |r.value.group1| ==> IsIdChar(r.value.group1[k])
    ensures r.Some? ==> p + |w| + |r.value.group1| <= r.value.end
  {
    if !(CaseInsensitiveAt(s, p, w) && IsBoundary(s, p) && IsBoundary(s, p + |w|)) then None
    else
      var g := GroupStart(s, p + |w|);
      if g < |s| && IsIdChar(s[g]) then
        var e := IdRunEnd(s, g);
        Some(Match(e, s[g..e], ""))
      else None
  }

  /** Every way of reading `RE_REMUN` at `p` makes `RemunerationAt` succeed, with the amount
      starting where the whitespace run ends and ending no earlier than that reading. */
  lemma RemunerationComplete(s: string, p: nat, b: nat, q: nat)
    requires p <= |s| && RemunerationShape(s, p, b, q)
    ensures b == SpaceRunEnd(s, p + 7)
    ensures RemunerationAt(s, p).Some? && q <= RemunerationAt(s, p).value.end
  {
    var a := p + 7;
    var b' := SpaceRunEnd(s, a);
    assert s[b..q][0] == s[b];
    assert b' == b;
    var c := if b < |s| && s[b] == '-' then b + 1 else b;
    forall k | c <= k < q
      ensures IsAmountChar(s[k])
    {
      if s[b] == '-' {
        assert s[k] == s[b..q][1..][k - b - 1];
      } else {
        assert s[k] == s[b..q][k - b];
      }
    }
    AmountRunCovers(s, c, q);
  }

  /** When the label and its boundaries are there and a character of `[\d\.\-]` stands where
      `GroupStart` puts the group, `LabelAt` reports the whole run from there. */
  lemma LabelAtGroup(s: string, p: nat, w: string)
    requires p <= |s|
    requires |w| > 0 && forall k :: 0 <= k < |w| ==> 'a' <= w[k] <= 'z'
    requires CaseInsensitiveAt(s, p, w) && IsBoundary(s, p) && IsBoundary(s, p + |w|)
    requires GroupStart(s, p + |w|) < |s| && IsIdChar(s[GroupStart(s, p + |w|)])
    ensures var g := GroupStart(s, p + |w|);
      LabelAt(s, p, w) == Some(Match(IdRunEnd(s, g), s[g..IdRunEnd(s, g)], ""))
  {
  }

  /** Every way of reading the label pattern at `p` makes `LabelAt` succeed, and the group it
      reports starts no earlier than that reading's group; when it starts at the same place,
      it ends no earlier. */
  lemma LabelComplete(s: string, p: nat, w: string, g: nat, e: nat)
    requires p <= |s|
    requires |w| > 0 && forall k :: 0 <= k < |w| ==> 'a' <= w[k] <= 'z'
    requires LabelShape(s, p, w, g, e)
    ensures LabelAt(s, p, w).Some?
    ensures var m := LabelAt(s, p, w).value;
      g + |m.group1| <= m.end && (g + |m.group1| == m.end ==> e <= m.end)
  {
    GroupStartLast(s, p + |w|, g);
    LabelAtGroup(s, p, w);
    IdRunCovers(s, g, e);
  }

  /** The result of matching `pat` at position `p` of `s`, or None when it does not match there. */
  function MatchAt(pat: Pattern, s: string, p: nat): (r: Option<Match>)
    requires p <= |s|
    ensures r.Some? ==> p < r.value.end <= |s|
    ensures pat.Date? ==> (r.Some? <==> DateShape(s, p) && IsBoundary(s, p) && IsBoundary(s, p + 10))
    ensures pat.Date? && r.Some? ==> r.value.end == p + 10
    ensures pat.MonthYear? ==> (r.Some? <==> MonthYearShape(s, p) && IsBoundary(s, p) && IsBoundary(s, p + 7))
    ensures pat.MonthYear? && r.Some? ==> r.value.end == p + 7
    ensures pat.Remuneration? && r.Some? ==> IsAmountText(r.value.group2)
  {
    match pat
    case Date =>
      if DateShape(s, p) && IsBoundary(s, p) && IsBoundary(s, p + 10) then Some(Match(p + 10, "", "")) else None
    case MonthYear =>
      if MonthYearShape(s, p) && IsBoundary(s, p) && IsBoundary(s, p + 7) then Some(Match(p + 7, "", "")) else None
    case Employee =>
      if CaseInsensitiveAt(s, p, "empregado") && IsBoundary(s, p) && IsBoundary(s, p + 9)
      then Some(Match(p + 9, "", "")) else None
    case Remuneration => RemunerationAt(s, p)
    case Cpf => LabelAt(s, p, "cpf")
    case Nit => LabelAt(s, p, "nit")
  }

  /** `pat.search(s, from)`: the leftmost position at or after `from` where `pat` matches. */
  function Search(pat: Pattern, s: string, from: nat): (r: Option<nat>)
    ensures r.Some? ==> from <= r.value <= |s| && MatchAt(pat, s, r.value).Some?
    ensures r.Some? ==> forall q :: from <= q < r.value ==> MatchAt(pat, s, q).None?
    ensures r.None? ==> forall q :: from <= q <= |s| ==> MatchAt(pat, s, q).None?
    decreases |s| + 1 - from
  {
    if from > |s| then None
    else if MatchAt(pat, s, from).Some? then Some(from)
    else Search(pat, s, from + 1)
  }

  /** The patterns used with `findall`: fixed width and without groups. */
  predicate IsFixed(pat: Pattern)
  {
    pat.Date? || pat.MonthYear?
  }

  function Width(pat: Pattern): nat
    requires IsFixed(pat)
  {
    if pat.Date? then 10 else 7
  }

  /** Two matches of a date or of a month/year never overlap: inside one, `\b` holds only
      next to a '/', and no match can start at those places. */
  lemma NoOverlap(pat: Pattern, s: string, p: nat, q: nat)
    requires IsFixed(pat) && p < q <= |s|
    requires MatchAt(pat, s, p).Some? && MatchAt(pat, s, q).Some?
    ensures p + Width(pat) <= q
  {
  }

  /** The start positions of the matches `findall` reports, scanning from `from`: every one
      is a match, and they come left to right without overlapping. */
  function MatchPositions(pat: Pattern, s: string, from: nat): (ps: seq<nat>)
    requires IsFixed(pat)
    ensures forall k :: 0 <= k < |ps| ==> from <= ps[k] && ps[k] + Width(pat) <= |s| && MatchAt(pat, s, ps[k]).Some?
    ensures forall k, l :: 0 <= k < l < |ps| ==> ps[k] + Width(pat) <= ps[l]
    decreases |s| + 1 - from
  {
    match Search(pat, s, from)
    case None => []
    case Some(p) => [p] + MatchPositions(pat, s, p + Width(pat))
  }

  /** No match is missed: since matches cannot overlap, every one at or after `from` is reported. */
  lemma {:induction false} MatchPositionsComplete(pat: Pattern, s: string, from: nat, q: nat)
    requires IsFixed(pat) && from <= q <= |s| && MatchAt(pat, s, q).Some?
    ensures q in MatchPositions(pat, s, from)
    decreases |s| + 1 - from
  {
    var r := Search(pat, s, from);
    assert r.Some? && r.value <= q;
    var p := r.value;
    var rest := MatchPositions(pat, s, p + Width(pat));
    assert MatchPositions(pat, s, from) == [p] + rest;
    if q != p {
      assert p + Width(pat) <= q by {
        NoOverlap(pat, s, p, q);
      }
      MatchPositionsComplete(pat, s, p + Width(pat), q);
      assert q in rest;
    }
  }

  /** `pat.findall(s)`: the text of every match, left to right. */
  function FindAll(pat: Pattern, s: string): (r: seq<string>)
    requires IsFixed(pat)
    ensures |r| == |MatchPositions(pat, s, 0)|
    ensures forall k :: 0 <= k < |r| ==>
      var p := MatchPositions(pat, s, 0)[k]; r[k] == s[p..p + Width(pat)]
  {
    var ps := MatchPositions(pat, s, 0);
    seq(|ps|, k requires 0 <= k < |ps| => s[ps[k]..ps[k] + Width(pat)])
  }
}
