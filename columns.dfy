/** Column splitting of one report line: `SEP_COLS` and `_split_cols`. */
module Columns {
  import opened Common
  import opened Chars

  /** A character that column splitting never drops: neither whitespace nor a pipe. */
  predicate IsVisible(c: char)
  {
    !IsSpace(c) && c != '|'
  }

  /** The visible characters of `s`, in order. */
  function Visible(s: string): string
  {
    if s == [] then [] else Visible(s[..|s| - 1]) + (if IsVisible(s[|s| - 1]) then [s[|s| - 1]] else [])
  }

  lemma {:induction false} VisibleAppend(a: string, b: string)
    ensures Visible(a + b) == Visible(a) + Visible(b)
    decreases |b|
  {
    if b == [] {
      assert a + b == a;
    } else {
      var b' := b[..|b| - 1];
      assert (a + b)[..|a + b| - 1] == a + b';
      VisibleAppend(a, b');
    }
  }

  lemma {:induction false} VisibleNone(s: string)
    requires forall k :: 0 <= k < |s| ==> !IsVisible(s[k])
    ensures Visible(s) == []
  {
    if s != [] {
      VisibleNone(s[..|s| - 1]);
    }
  }

  /** A match of the separator pattern `\s{2,}|\t|\|` starts at position `i`. */
  predicate StartsSep(s: string, i: nat)
    requires i < |s|
  {
    s[i] == '\t' || s[i] == '|' || (i + 1 < |s| && IsSpace(s[i]) && IsSpace(s[i + 1]))
  }

  /** `s` holds no separator: no tab, no pipe, no two whitespace characters in a row. */
  predicate NoSep(s: string)
  {
    forall i :: 0 <= i < |s| ==> !StartsSep(s, i)
  }

  /** End of the separator match at `i`. The first alternative, `\s{2,}`, is tried first and
      takes the whole run of whitespace; otherwise the match is the single tab or pipe. */
  function SepEnd(s: string, i: nat): (j: nat)
    requires i < |s| && StartsSep(s, i)
    ensures i < j <= |s|
    ensures forall k :: i <= k < j ==> !IsVisible(s[k])
    ensures i + 1 < |s| && IsSpace(s[i]) && IsSpace(s[i + 1]) ==>
      (forall k :: i <= k < j ==> IsSpace(s[k])) && (j == |s| || !IsSpace(s[j]))
    ensures !(i + 1 < |s| && IsSpace(s[i]) && IsSpace(s[i + 1])) ==> j == i + 1
  {
    if i + 1 < |s| && IsSpace(s[i]) && IsSpace(s[i + 1]) then SpaceRunEnd(s, i) else i + 1
  }

  /** What a column of a split line looks like: non-empty, separator-free, and neither
      starting nor ending with whitespace. */
  predicate IsColumn(c: string)
  {
    c != [] && NoSep(c) && !IsSpace(c[0]) && !IsSpace(c[|c| - 1])
  }

  /** A substring of a separator-free stretch of `s` is separator-free. */
  lemma NoSepSlice(s: string, a: nat, b: nat)
    requires a <= b <= |s|
    requires forall k :: a <= k < b ==> !StartsSep(s, k)
    ensures NoSep(s[a..b])
  {
    var p := s[a..b];
    forall k | 0 <= k < |p| ensures !StartsSep(p, k) {
      assert !StartsSep(s, a + k);
      assert p[k] == s[a + k];
      if k + 1 < |p| {
        assert p[k + 1] == s[a + k + 1];
      }
    }
  }

  /** `SEP_COLS.split(s[start..])` when no separator starts in `s[start..i]`: the pieces left
      between separator matches, from left to right. */
  function Pieces(s: string, start: nat, i: nat): (ps: seq<string>)
    requires start <= i <= |s|
    requires forall k :: start <= k < i ==> !StartsSep(s, k)
    ensures |ps| >= 1
    ensures forall k :: 0 <= k < |ps| ==> NoSep(ps[k])
    decreases |s| - i
  {
    if i == |s| then
      NoSepSlice(s, start, |s|);
      assert s[start..|s|] == s[start..];
      [s[start..]]
    else if StartsSep(s, i) then
      NoSepSlice(s, start, i);
      [s[start..i]] + Pieces(s, SepEnd(s, i), SepEnd(s, i))
    else
      Pieces(s, start, i + 1)
  }

  /** Where a piece or a column lies in its line: `s[lo..hi]`. */
  datatype Span = Span(lo: nat, hi: nat)

  /** `xs` are the texts of `s` at the spans `sp`. */
  predicate SpansOf(s: string, xs: seq<string>, sp: seq<Span>)
  {
    |xs| == |sp|
    && forall m :: 0 <= m < |sp| ==> sp[m].lo <= sp[m].hi <= |s| && xs[m] == s[sp[m].lo..sp[m].hi]
  }

  /** `sp` is how `SEP_COLS.split` cuts `s[start..]`: the first piece starts at `start` and the
      last ends with the line; no separator match starts inside a piece; and each piece ends
      exactly where a separator match starts, the next one starting where that match ends. */
  predicate SplitAt(s: string, start: nat, sp: seq<Span>)
  {
    |sp| >= 1 && sp[0].lo == start && sp[|sp| - 1].hi == |s|
    && (forall m :: 0 <= m < |sp| ==>
          sp[m].lo <= sp[m].hi <= |s| && forall k :: sp[m].lo <= k < sp[m].hi ==> !StartsSep(s, k))
    && (forall m :: 0 <= m < |sp| - 1 ==>
          sp[m].hi < |s| && StartsSep(s, sp[m].hi) && sp[m + 1].lo == SepEnd(s, sp[m].hi))
  }

  /** The pieces of `Pieces(s, start, i)` are the text between the separator matches, taken
      from left to right: together with those matches they make up `s[start..]`. */
  lemma {:induction false} PiecesAt(s: string, start: nat, i: nat) returns (sp: seq<Span>)
    requires start <= i <= |s|
    requires forall k :: start <= k < i ==> !StartsSep(s, k)
    ensures SplitAt(s, start, sp) && SpansOf(s, Pieces(s, start, i), sp)
    decreases |s| - i
  {
    if i == |s| {
      sp := [Span(start, |s|)];
      assert s[start..] == s[start..|s|];
    } else if StartsSep(s, i) {
      var j := SepEnd(s, i);
      var rest := PiecesAt(s, j, j);
      sp := [Span(start, i)] + rest;
      assert Pieces(s, start, i) == [s[start..i]] + Pieces(s, j, j);
      SpansOfAppend(s, [s[start..i]], [Span(start, i)], Pieces(s, j, j), rest);
      SplitAtCons(s, start, i, rest);
    } else {
      sp := PiecesAt(s, start, i + 1);
    }
  }

  /** A separator-free stretch `s[start..i]` ending where a separator match starts, followed by
      a split of what comes after the match, is a split of `s[start..]`. */
  lemma SplitAtCons(s: string, start: nat, i: nat, rest: seq<Span>)
    requires start <= i < |s| && StartsSep(s, i)
    requires forall k :: start <= k < i ==> !StartsSep(s, k)
    requires SplitAt(s, SepEnd(s, i), rest)
    ensures SplitAt(s, start, [Span(start, i)] + rest)
  {
    var sp := [Span(start, i)] + rest;
    forall m | 1 <= m < |sp|
      ensures sp[m] == rest[m - 1]
    {
    }
    assert sp[|sp| - 1] == rest[|rest| - 1];
    forall m | 0 <= m < |sp| - 1
      ensures sp[m].hi < |s| && StartsSep(s, sp[m].hi) && sp[m + 1].lo == SepEnd(s, sp[m].hi)
    {
      if m > 0 {
        assert sp[m] == rest[m - 1] && sp[m + 1] == rest[m];
      }
    }
  }

  /** A stretch of `p` without visible characters has no visible characters. */
  lemma InvisibleRange(p: string, lo: nat, hi: nat)
    requires lo <= hi <= |p|
    requires forall k :: lo <= k < hi ==> !IsVisible(p[k])
    ensures Visible(p[lo..hi]) == []
  {
    var x := p[lo..hi];
    forall k | 0 <= k < |x| ensures !IsVisible(x[k]) {
      assert x[k] == p[lo + k];
    }
    VisibleNone(x);
  }

  /** Skipping an invisible stretch `s[i..j]` of `s[a..]` loses no visible character. */
  lemma VisibleSkip(s: string, a: nat, i: nat, j: nat)
    requires a <= i <= j <= |s|
    requires Visible(s[i..j]) == []
    ensures Visible(s[a..]) == Visible(s[a..i]) + Visible(s[j..])
  {
    assert s[a..] == s[a..i] + s[i..j] + s[j..];
    VisibleAppend(s[a..i], s[i..j]);
    VisibleAppend(s[a..i] + s[i..j], s[j..]);
  }

  /** The pieces keep every visible character of `s[start..]`, in order: what lies between
      them is separators, which hold no visible character. */
  lemma {:induction false} PiecesVisible(s: string, start: nat, i: nat)
    requires start <= i <= |s|
    requires forall k :: start <= k < i ==> !StartsSep(s, k)
    ensures Visible(Concat(Pieces(s, start, i))) == Visible(s[start..])
    decreases |s| - i
  {
    if i == |s| {
      assert Pieces(s, start, i) == [s[start..]];
      ConcatOne(s[start..]);
    } else if StartsSep(s, i) {
      var j := SepEnd(s, i);
      var rest := Pieces(s, j, j);
      assert Pieces(s, start, i) == [s[start..i]] + rest;
      VisibleConcatCons(s[start..i], rest);
      PiecesVisible(s, j, j);
      InvisibleRange(s, i, j);
      VisibleSkip(s, start, i, j);
    } else {
      PiecesVisible(s, start, i + 1);
    }
  }

  /** `[c.strip() for c in ps if c.strip()]`. */
  function StripAll(ps: seq<string>): seq<string>
  {
    if ps == [] then []
    else
      var c := Strip(ps[0]);
      (if c != [] then [c] else []) + StripAll(ps[1..])
  }

  /** Stripping separator-free pieces and dropping the empty ones leaves only columns. */
  lemma {:induction false} StripAllColumns(ps: seq<string>)
    requires forall k :: 0 <= k < |ps| ==> NoSep(ps[k])
    ensures forall k :: 0 <= k < |StripAll(ps)| ==> IsColumn(StripAll(ps)[k])
  {
    if ps != [] {
      var c := Strip(ps[0]);
      var rest := StripAll(ps[1..]);
      var head := if c != [] then [c] else [];
      assert forall k :: 0 <= k < |head| ==> IsColumn(head[k]) by {
        StripColumn(ps[0]);
      }
      assert forall k :: 0 <= k < |rest| ==> IsColumn(rest[k]) by {
        StripAllColumns(ps[1..]);
      }
      assert StripAll(ps) == head + rest;
      AllAppend(head, rest, IsColumn);
    }
  }

  /** The visible characters of `[x] + xs`, joined, are those of `x` followed by those of `xs`. */
  lemma VisibleConcatCons(x: string, xs: seq<string>)
    ensures Visible(Concat([x] + xs)) == Visible(x) + Visible(Concat(xs))
  {
    ConcatCons(x, xs);
    VisibleAppend(x, Concat(xs));
  }

  /** One step of `StripAllVisible`, apart from what `strip` is: replacing the first piece by a
      text with the same visible characters, dropped when empty, keeps the visible characters. */
  lemma StripAllStep(ps: seq<string>, c: string, rest: seq<string>, out: seq<string>)
    requires ps != [] && Visible(c) == Visible(ps[0])
    requires Visible(Concat(rest)) == Visible(Concat(ps[1..]))
    requires out == (if c != [] then [c] else []) + rest
    ensures Visible(Concat(out)) == Visible(Concat(ps))
  {
    assert Visible(Concat(ps)) == Visible(ps[0]) + Visible(Concat(ps[1..])) by {
      assert ps == [ps[0]] + ps[1..];
      VisibleConcatCons(ps[0], ps[1..]);
    }
    assert Visible(Concat(out)) == Visible(c) + Visible(Concat(rest)) by {
      if c != [] {
        VisibleConcatCons(c, rest);
      } else {
        assert out == rest;
      }
    }
  }

  /** Stripping and dropping empty pieces loses no visible character. */
  lemma {:induction false} StripAllVisible(ps: seq<string>)
    ensures Visible(Concat(StripAll(ps))) == Visible(Concat(ps))
  {
    if ps != [] {
      StripVisible(ps[0]);
      StripAllVisible(ps[1..]);
      StripAllStep(ps, Strip(ps[0]), StripAll(ps[1..]), StripAll(ps));
    }
  }

  lemma StripColumn(p: string)
    requires NoSep(p)
    ensures Strip(p) != [] ==> IsColumn(Strip(p))
  {
    StripBounds(p);
    var r := Strip(p);
    NoSepSlice(p, |RStrip(p)| - |r|, |RStrip(p)|);
  }

  /** Text without visible characters on either side of `r` adds nothing to `Visible(r)`. */
  lemma VisibleFramed(x: string, r: string, z: string)
    requires Visible(x) == [] && Visible(z) == []
    ensures Visible(x + r + z) == Visible(r)
  {
    VisibleAppend(x, r);
    VisibleAppend(x + r, z);
  }

  /** Cutting invisible text off both ends of `p` keeps its visible characters. */
  lemma VisibleTrim(p: string, a: nat, b: nat)
    requires a <= b <= |p|
    requires Visible(p[..a]) == [] && Visible(p[b..]) == []
    ensures Visible(p[a..b]) == Visible(p)
  {
    SliceSplit(p, a, b);
    VisibleFramed(p[..a], p[a..b], p[b..]);
  }

  /** Whitespace before `a` and from `b` on is invisible. */
  lemma SpacesAround(p: string, a: nat, b: nat)
    requires a <= b <= |p|
    requires forall k :: 0 <= k < a ==> IsSpace(p[k])
    requires forall k :: b <= k < |p| ==> IsSpace(p[k])
    ensures Visible(p[..a]) == [] && Visible(p[b..]) == []
  {
    InvisibleRange(p, 0, a);
    InvisibleRange(p, b, |p|);
    assert p[..a] == p[0..a];
    assert p[b..] == p[b..|p|];
  }

  /** `p.strip()` is `p[a..b]`, and what it cuts off at either end is whitespace. */
  lemma StripCut(p: string) returns (a: nat, b: nat)
    ensures a <= b <= |p| && Strip(p) == p[a..b]
    ensures forall k :: 0 <= k < a ==> IsSpace(p[k])
    ensures forall k :: b <= k < |p| ==> IsSpace(p[k])
  {
    var r := Strip(p);
    StripBounds(p);
    a := |RStrip(p)| - |r|;
    b := a + |r|;
  }

  /** What `StripOne` keeps of `p`: `p[a..b]` when that is not empty, with only whitespace
      around it. */
  lemma StripOneCut(p: string) returns (a: nat, b: nat)
    ensures a <= b <= |p| && StripOne(p) == if a < b then [p[a..b]] else []
    ensures forall k :: 0 <= k < a ==> IsSpace(p[k])
    ensures forall k :: b <= k < |p| ==> IsSpace(p[k])
  {
    a, b := StripCut(p);
    var r := Strip(p);
    if a < b {
      assert |r| == b - a;
    } else {
      assert |r| == 0;
    }
  }

  /** `p.strip()` is `p[a..b]`, and what it cuts off at either end is invisible. */
  lemma StripEnds(p: string) returns (a: nat, b: nat)
    ensures a <= b <= |p| && Strip(p) == p[a..b]
    ensures Visible(p[..a]) == [] && Visible(p[b..]) == []
  {
    a, b := StripCut(p);
    SpacesAround(p, a, b);
  }

  lemma StripVisible(p: string)
    ensures Visible(Strip(p)) == Visible(p)
  {
    var a, b := StripEnds(p);
    VisibleTrim(p, a, b);
  }

  /** Consecutive spans of `sp` are apart, a separator match starts right after each, and
      nothing visible lies between them. */
  predicate Chained(s: string, sp: seq<Span>)
  {
    forall m, n :: 0 <= m && n == m + 1 < |sp| ==>
      sp[m].hi < sp[n].lo <= |s| && StartsSep(s, sp[m].hi)
      && forall k :: sp[m].hi <= k < sp[n].lo ==> !IsVisible(s[k])
  }

  /** Consecutive spans of `cs` are apart, and a separator match starts between them. */
  predicate Separated(s: string, cs: seq<Span>)
  {
    forall m, n :: 0 <= m && n == m + 1 < |cs| ==>
      cs[m].hi < cs[n].lo <= |s|
      && exists k :: cs[m].hi <= k < cs[n].lo && StartsSep(s, k)
  }

  /** Every visible character of `s[lo..hi]` lies in one of the spans `cs`. */
  predicate Covers(s: string, lo: nat, hi: nat, cs: seq<Span>)
    requires hi <= |s|
  {
    forall k :: lo <= k < hi && IsVisible(s[k]) ==> exists m :: 0 <= m < |cs| && cs[m].lo <= k < cs[m].hi
  }

  /** Positions `i..j` of the slice `p == s[lo..hi]` are positions `lo + i..lo + j` of `s`;
      whitespace around them in `p` is whitespace around them in `s`. */
  lemma SliceCut(s: string, lo: nat, hi: nat, p: string, i: nat, j: nat)
    requires lo <= hi <= |s| && p == s[lo..hi] && i <= j <= |p|
    requires forall k :: 0 <= k < i ==> IsSpace(p[k])
    requires forall k :: j <= k < |p| ==> IsSpace(p[k])
    ensures p[i..j] == s[lo + i..lo + j]
    ensures forall k :: lo <= k < lo + i ==> IsSpace(s[k])
    ensures forall k :: lo + j <= k < hi ==> IsSpace(s[k])
  {
    SliceOfSlice(s, lo, hi, i, j);
    SpacesIn(s, lo, hi, p, 0, i);
    SpacesIn(s, lo, hi, p, j, |p|);
  }

  /** Whitespace at positions `i..j` of the slice `p == s[lo..hi]` is whitespace at
      `lo + i..lo + j` of `s`. */
  lemma SpacesIn(s: string, lo: nat, hi: nat, p: string, i: nat, j: nat)
    requires lo <= hi <= |s| && p == s[lo..hi] && i <= j <= hi - lo
    requires forall k :: i <= k < j ==> IsSpace(p[k])
    ensures forall k :: lo + i <= k < lo + j ==> IsSpace(s[k])
  {
    forall k | lo + i <= k < lo + j
      ensures IsSpace(s[k])
    {
      assert s[k] == p[k - lo];
    }
  }

  /** A slice of a slice of `s` is a slice of `s`. */
  lemma SliceOfSlice(s: string, lo: nat, hi: nat, a: nat, b: nat)
    requires lo <= hi <= |s| && a <= b <= hi - lo
    ensures s[lo..hi][a..b] == s[lo + a..lo + b]
  {
    var x, y := s[lo..hi][a..b], s[lo + a..lo + b];
    assert |x| == |y|;
    forall i | 0 <= i < |x|
      ensures x[i] == y[i]
    {
      assert x[i] == s[lo..hi][a + i] == s[lo + a + i];
    }
  }

  /** `cs` are the spans of the columns `xs` of `s[lo..hi]`: each non-empty and inside
      `s[lo..hi]`, a separator match between any two in a row, and every visible character of
      `s[lo..hi]` inside one of them. */
  predicate ColumnsAt(s: string, lo: nat, hi: nat, xs: seq<string>, cs: seq<Span>)
  {
    lo <= hi <= |s| && SpansOf(s, xs, cs)
    && (forall m :: 0 <= m < |cs| ==> lo <= cs[m].lo < cs[m].hi <= hi)
    && Separated(s, cs) && Covers(s, lo, hi, cs)
  }

  /** What stripping the piece `p` keeps, as a list of at most one column. */
  function StripOne(p: string): seq<string>
  {
    var c := Strip(p);
    if c != [] then [c] else []
  }

  /** The stretch `s[lo..hi]` holds nothing but whitespace outside `s[a..b]`: its columns are
      `s[a..b]` alone, or none when that is empty. */
  lemma OneColumn(s: string, lo: nat, a: nat, b: nat, hi: nat) returns (cs: seq<Span>)
    requires lo <= a <= b <= hi <= |s|
    requires forall k :: lo <= k < a ==> IsSpace(s[k])
    requires forall k :: b <= k < hi ==> IsSpace(s[k])
    ensures ColumnsAt(s, lo, hi, if a < b then [s[a..b]] else [], cs)
  {
    cs := if a < b then [Span(a, b)] else [];
    forall k | lo <= k < hi && IsVisible(s[k])
      ensures exists m :: 0 <= m < |cs| && cs[m].lo <= k < cs[m].hi
    {
      assert cs[0].lo <= k < cs[0].hi;
    }
  }

  /** The piece `p == s[lo..hi]` holds only whitespace outside `p[i..j]`: its columns are
      `p[i..j]` alone, or none when that is empty. */
  lemma PieceColumns(s: string, lo: nat, hi: nat, p: string, i: nat, j: nat) returns (cs: seq<Span>)
    requires lo <= hi <= |s| && p == s[lo..hi] && i <= j <= |p|
    requires forall k :: 0 <= k < i ==> IsSpace(p[k])
    requires forall k :: j <= k < |p| ==> IsSpace(p[k])
    ensures ColumnsAt(s, lo, hi, if i < j then [p[i..j]] else [], cs)
  {
    SliceCut(s, lo, hi, p, i, j);
    cs := OneColumn(s, lo, lo + i, lo + j, hi);
  }

  /** The columns `x` of `s[lo..hi]`, then a separator match, then the columns `xs` of
      `s[next..last]`: together, the columns of `s[lo..last]`. */
  lemma ColumnsCons(s: string, lo: nat, hi: nat, x: seq<string>, head: seq<Span>, next: nat, last: nat,
                    xs: seq<string>, rs: seq<Span>) returns (cs: seq<Span>)
    requires ColumnsAt(s, lo, hi, x, head) && |head| <= 1
    requires ColumnsAt(s, next, last, xs, rs) && hi < next
    requires StartsSep(s, hi) && forall k :: hi <= k < next ==> !IsVisible(s[k])
    ensures ColumnsAt(s, lo, last, x + xs, cs)
  {
    cs := head + rs;
    SpansOfAppend(s, x, head, xs, rs);
    CoversCons(s, lo, hi, next, last, head, rs);
    if head == [] {
      assert cs == rs;
    } else if rs == [] {
      assert cs == head;
    } else {
      assert cs == [head[0]] + rs;
      SeparatedCons(s, head[0], rs, hi);
    }
    WithinAppend(head, rs, lo, hi, next, last);
  }

  /** Spans inside `lo..hi` followed by spans inside `next..last`, with `hi < next`, are all
      inside `lo..last`. */
  lemma WithinAppend(head: seq<Span>, rs: seq<Span>, lo: nat, hi: nat, next: nat, last: nat)
    requires lo <= hi < next <= last
    requires forall m :: 0 <= m < |head| ==> lo <= head[m].lo < head[m].hi <= hi
    requires forall m :: 0 <= m < |rs| ==> next <= rs[m].lo < rs[m].hi <= last
    ensures forall m :: 0 <= m < |head + rs| ==> lo <= (head + rs)[m].lo < (head + rs)[m].hi <= last
  {
    forall m | 0 <= m < |head + rs|
      ensures lo <= (head + rs)[m].lo < (head + rs)[m].hi <= last
    {
      if m >= |head| {
        assert (head + rs)[m] == rs[m - |head|];
      }
    }
  }

  /** `StripAll` over pieces that lie at the spans `sp`, chained by separator matches: the
      columns it keeps lie at the spans `cs`. */
  lemma {:induction false} StripAllAt(s: string, ps: seq<string>, sp: seq<Span>) returns (cs: seq<Span>)
    requires |ps| >= 1 && SpansOf(s, ps, sp) && Chained(s, sp)
    ensures ColumnsAt(s, sp[0].lo, sp[|sp| - 1].hi, StripAll(ps), cs)
    decreases |ps|
  {
    assert StripAll(ps) == StripOne(ps[0]) + StripAll(ps[1..]);
    var i, j := StripOneCut(ps[0]);
    var head := PieceColumns(s, sp[0].lo, sp[0].hi, ps[0], i, j);
    if |ps| == 1 {
      cs := head;
      assert StripAll(ps[1..]) == [];
    } else {
      assert sp[1..][0] == sp[1] && sp[1..][|sp| - 2] == sp[|sp| - 1];
      ChainedTail(s, ps, sp);
      var rs := StripAllAt(s, ps[1..], sp[1..]);
      assert 0 <= 0 && 1 == 0 + 1 < |sp|;
      cs := ColumnsCons(s, sp[0].lo, sp[0].hi, StripOne(ps[0]), head, sp[1].lo, sp[|sp| - 1].hi,
                        StripAll(ps[1..]), rs);
    }
  }

  /** Dropping the first piece keeps the spans and the chain. */
  lemma ChainedTail(s: string, ps: seq<string>, sp: seq<Span>)
    requires |ps| >= 1 && SpansOf(s, ps, sp) && Chained(s, sp)
    ensures SpansOf(s, ps[1..], sp[1..]) && Chained(s, sp[1..])
  {
    var tp := sp[1..];
    forall m, n | 0 <= m && n == m + 1 < |tp|
      ensures tp[m].hi < tp[n].lo <= |s| && StartsSep(s, tp[m].hi)
      ensures forall k :: tp[m].hi <= k < tp[n].lo ==> !IsVisible(s[k])
    {
      assert tp[m] == sp[m + 1] && tp[n] == sp[n + 1];
    }
  }

  lemma SpansOfAppend(s: string, xs: seq<string>, sp: seq<Span>, ys: seq<string>, tp: seq<Span>)
    requires SpansOf(s, xs, sp) && SpansOf(s, ys, tp)
    ensures SpansOf(s, xs + ys, sp + tp)
  {
    forall m | |sp| <= m < |sp| + |tp|
      ensures (sp + tp)[m] == tp[m - |sp|] && (xs + ys)[m] == ys[m - |sp|]
    {
    }
  }

  /** Putting a span in front of separated spans, with a separator match starting at `k`
      between them, keeps them separated. */
  lemma SeparatedCons(s: string, c: Span, rest: seq<Span>, k: nat)
    requires Separated(s, rest) && rest != []
    requires c.hi <= k < rest[0].lo <= |s| && StartsSep(s, k)
    ensures Separated(s, [c] + rest)
  {
    var cs := [c] + rest;
    forall m, n | 0 <= m && n == m + 1 < |cs|
      ensures cs[m].hi < cs[n].lo <= |s|
      ensures exists j :: cs[m].hi <= j < cs[n].lo && StartsSep(s, j)
    {
      if m > 0 {
        assert cs[m] == rest[m - 1] && cs[n] == rest[n - 1];
      } else {
        assert cs[0].hi <= k < cs[1].lo && StartsSep(s, k);
      }
    }
  }

  /** Spans covering `s[lo..gap]`, then nothing visible up to `mid`, then spans covering
      `s[mid..hi]`: together they cover `s[lo..hi]`. */
  lemma CoversCons(s: string, lo: nat, gap: nat, mid: nat, hi: nat, head: seq<Span>, rest: seq<Span>)
    requires lo <= gap <= mid <= hi <= |s|
    requires Covers(s, lo, gap, head) && Covers(s, mid, hi, rest)
    requires forall k :: gap <= k < mid ==> !IsVisible(s[k])
    ensures Covers(s, lo, hi, head + rest)
  {
    var cs := head + rest;
    forall k | lo <= k < hi && IsVisible(s[k])
      ensures exists m :: 0 <= m < |cs| && cs[m].lo <= k < cs[m].hi
    {
      if k < gap {
        var m :| 0 <= m < |head| && head[m].lo <= k < head[m].hi;
        assert cs[m] == head[m];
      } else {
        assert k >= mid;
        var m :| 0 <= m < |rest| && rest[m].lo <= k < rest[m].hi;
        assert cs[|head| + m] == rest[m];
      }
    }
  }

  /** The cuts of `SEP_COLS.split` chain their pieces: a separator match, and nothing
      visible, between any two in a row. */
  lemma SplitChained(s: string, start: nat, sp: seq<Span>)
    requires SplitAt(s, start, sp)
    ensures Chained(s, sp)
  {
    forall m, n | 0 <= m && n == m + 1 < |sp|
      ensures sp[m].hi < sp[n].lo <= |s| && StartsSep(s, sp[m].hi)
      ensures forall k :: sp[m].hi <= k < sp[n].lo ==> !IsVisible(s[k])
    {
      assert sp[n].lo == SepEnd(s, sp[m].hi);
    }
  }

  /** `_split_cols(linha)`: the non-empty, stripped pieces of the line between separators. None
      holds a separator, and together they keep every visible character of the line, in order. */
  function SplitCols(linha: string): (cols: seq<string>)
    ensures forall k :: 0 <= k < |cols| ==> IsColumn(cols[k])
    ensures Visible(Concat(cols)) == Visible(linha)
  {
    assert linha[0..] == linha;
    PiecesVisible(linha, 0, 0);
    StripAllColumns(Pieces(linha, 0, 0));
    StripAllVisible(Pieces(linha, 0, 0));
    StripAll(Pieces(linha, 0, 0))
  }

  /** Where the columns of `_split_cols(linha)` lie in the line: each at a non-empty span, the
      spans in order and apart, a separator match starting between any two in a row, and every
      visible character of the line inside one of them. */
  lemma SplitColsAt(linha: string) returns (cs: seq<Span>)
    ensures ColumnsAt(linha, 0, |linha|, SplitCols(linha), cs)
  {
    var sp := PiecesAt(linha, 0, 0);
    SplitChained(linha, 0, sp);
    cs := StripAllAt(linha, Pieces(linha, 0, 0), sp);
  }
}
