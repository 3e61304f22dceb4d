/** The optional value used wherever the parser yields None. */
module Common {

  datatype Option<T> = None | Some(value: T)

  /** Element `n` of `xs`, or None when `xs` is shorter (Python's `xs[n] if len(xs) > n else None`). */
  function Nth<T>(xs: seq<T>, n: nat): (r: Option<T>)
    ensures r.Some? <==> n < |xs|
    ensures r.Some? ==> r.value == xs[n]
  {
    if n < |xs| then Some(xs[n]) else None
  }

  /** The last element of `xs`, or None when it is empty (Python's `xs[-1] if xs else None`). */
  function Last<T>(xs: seq<T>): (r: Option<T>)
    ensures r.Some? <==> xs != []
    ensures r.Some? ==> r.value == xs[|xs| - 1]
  {
    if xs == [] then None else Some(xs[|xs| - 1])
  }

  /** The concatenation of a sequence of sequences, in order. */
  function Concat<T>(xss: seq<seq<T>>): seq<T>
  {
    if xss == [] then [] else Concat(xss[..|xss| - 1]) + xss[|xss| - 1]
  }

  lemma {:induction false} ConcatAppend<T>(xss: seq<seq<T>>, ys: seq<seq<T>>)
    ensures Concat(xss + ys) == Concat(xss) + Concat(ys)
  {
    if ys == [] {
      assert xss + ys == xss;
    } else {
      var init := ys[..|ys| - 1];
      assert (xss + ys)[..|xss + ys| - 1] == xss + init;
      ConcatAppend(xss, init);
    }
  }

  lemma SliceSplit<T>(s: seq<T>, a: nat, b: nat)
    requires a <= b <= |s|
    ensures s == s[..a] + s[a..b] + s[b..]
  {
  }

  lemma ConcatOne<T>(x: seq<T>)
    ensures Concat([x]) == x
  {
    assert [x][..0] == [];
  }

  lemma ConcatCons<T>(x: seq<T>, xss: seq<seq<T>>)
    ensures Concat([x] + xss) == x + Concat(xss)
  {
    ConcatAppend([x], xss);
    assert Concat([x]) == Concat([]) + x;
  }

  /** A property of every element of two sequences holds of every element of their concatenation. */
  lemma AllAppend<T>(a: seq<T>, b: seq<T>, P: T -> bool)
    requires forall k :: 0 <= k < |a| ==> P(a[k])
    requires forall k :: 0 <= k < |b| ==> P(b[k])
    ensures forall k :: 0 <= k < |a + b| ==> P((a + b)[k])
  {
    forall k | 0 <= k < |a + b| ensures P((a + b)[k]) {
      if k < |a| {
        assert (a + b)[k] == a[k];
      } else {
        assert (a + b)[k] == b[k - |a|];
      }
    }
  }

  /** The positions `j` with `lo <= j < hi` at which `flags[j]` holds, in increasing order. */
  function Positions(flags: seq<bool>, lo: nat, hi: nat): (ps: seq<nat>)
    requires hi <= |flags|
    ensures forall m :: 0 <= m < |ps| ==> lo <= ps[m] < hi && flags[ps[m]]
    ensures forall m, l :: 0 <= m < l < |ps| ==> ps[m] < ps[l]
    ensures forall j :: lo <= j < hi && flags[j] ==> j in ps
  {
    if hi <= lo then [] else Positions(flags, lo, hi - 1) + (if flags[hi - 1] then [hi - 1] else [])
  }

  /** No flag holds strictly between two consecutive positions, nor after the last one. */
  lemma PositionsGap(flags: seq<bool>, lo: nat, hi: nat, m: nat, j: nat)
    requires hi <= |flags|
    requires m < |Positions(flags, lo, hi)| && Positions(flags, lo, hi)[m] < j < hi
    requires m + 1 < |Positions(flags, lo, hi)| ==> j < Positions(flags, lo, hi)[m + 1]
    ensures !flags[j]
  {
    var ps := Positions(flags, lo, hi);
    forall l | 0 <= l < |ps| ensures ps[l] != j {
      if l < m {
        assert ps[l] < ps[m];
      } else if l > m + 1 {
        assert ps[m + 1] < ps[l];
      }
    }
  }

  /** The values at the flagged positions from `lo` up to `hi`, in order. */
  function Pick<T>(flags: seq<bool>, vals: seq<T>, lo: nat, hi: nat): seq<T>
    requires hi <= |flags| && hi <= |vals|
  {
    if hi <= lo then [] else Pick(flags, vals, lo, hi - 1) + (if flags[hi - 1] then [vals[hi - 1]] else [])
  }

  /** One more position picks its value when it is flagged. */
  lemma PickNext<T>(flags: seq<bool>, vals: seq<T>, lo: nat, hi: nat)
    requires lo <= hi < |flags| && hi < |vals|
    ensures Pick(flags, vals, lo, hi + 1) == Pick(flags, vals, lo, hi) + (if flags[hi] then [vals[hi]] else [])
  {
  }

  /** The picked values are those at the flagged positions, one for one. */
  lemma {:induction false} PickAt<T>(flags: seq<bool>, vals: seq<T>, lo: nat, hi: nat)
    requires hi <= |flags| && hi <= |vals|
    ensures |Pick(flags, vals, lo, hi)| == |Positions(flags, lo, hi)|
    ensures forall m :: 0 <= m < |Pick(flags, vals, lo, hi)| ==>
      Pick(flags, vals, lo, hi)[m] == vals[Positions(flags, lo, hi)[m]]
  {
    if hi > lo {
      PickAt(flags, vals, lo, hi - 1);
      var prev := Pick(flags, vals, lo, hi - 1);
      var vs := Pick(flags, vals, lo, hi);
      var ps := Positions(flags, lo, hi);
      assert vs == prev + (if flags[hi - 1] then [vals[hi - 1]] else []);
      assert ps == Positions(flags, lo, hi - 1) + (if flags[hi - 1] then [hi - 1] else []);
      forall m | 0 <= m < |vs| ensures vs[m] == vals[ps[m]] {
        if m < |prev| {
          assert vs[m] == prev[m] && ps[m] == Positions(flags, lo, hi - 1)[m];
        } else {
          assert vs[m] == vals[hi - 1] && ps[m] == hi - 1;
        }
      }
    }
  }
}
