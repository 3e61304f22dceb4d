/** Brazilian amounts, `_to_float_ptbr`: "1.234,56" is rewritten to "1234.56" and then read
    as a decimal number. */
module Amount {
  import opened Common
  import opened Chars

  /** The class `[\d\.\,]` of the remuneration pattern. */
  predicate IsAmountChar(c: char)
  {
    IsDigit(c) || c == '.' || c == ','
  }

  /** `[\d\.\,]+`. */
  predicate IsAmountRun(t: string)
  {
    |t| >= 1 && forall k :: 0 <= k < |t| ==> IsAmountChar(t[k])
  }

  /** `-?[\d\.\,]+`: the amount text that the remuneration pattern captures. */
  predicate IsAmountText(t: string)
  {
    IsAmountRun(t) || (|t| >= 1 && t[0] == '-' && IsAmountRun(t[1..]))
  }

  /** `t.replace(x, y)` for a one-character `x`. */
  function Replace(t: string, x: char, y: string): (r: string)
    ensures x !in y ==> x !in r
  {
    if t == [] then [] else (if t[0] == x then y else [t[0]]) + Replace(t[1..], x, y)
  }

  lemma {:induction false} ReplaceAppend(a: string, b: string, x: char, y: string)
    ensures Replace(a + b, x, y) == Replace(a, x, y) + Replace(b, x, y)
  {
    if a == [] {
      assert a + b == b;
    } else {
      assert (a + b)[1..] == a[1..] + b;
      ReplaceAppend(a[1..], b, x, y);
    }
  }

  /** The rewrite of `_to_float_ptbr`: `txt.replace(".", "").replace(",", ".")`. */
  function Normalize(t: string): string
  {
    Replace(Replace(t, '.', ""), ',', ".")
  }

  lemma NormalizeAppend(a: string, b: string)
    ensures Normalize(a + b) == Normalize(a) + Normalize(b)
  {
    ReplaceAppend(a, b, '.', "");
    ReplaceAppend(Replace(a, '.', ""), Replace(b, '.', ""), ',', ".");
  }

  /** Removing `x` leaves every other character as often as before. */
  lemma {:induction false} RemoveCount(t: string, x: char, c: char)
    ensures multiset(Replace(t, x, ""))[c] == if c == x then 0 else multiset(t)[c]
  {
    if t != [] {
      var rest := t[1..];
      RemoveCount(rest, x, c);
      assert t == [t[0]] + rest;
      assert multiset(t) == multiset([t[0]]) + multiset(rest);
      var h := if t[0] == x then "" else [t[0]];
      assert multiset(Replace(t, x, "")) == multiset(h) + multiset(Replace(rest, x, ""));
    }
  }

  /** Replacing `x` by `z` moves its occurrences to `z` and leaves the other characters. */
  lemma {:induction false} SwapCount(t: string, x: char, z: char, c: char)
    requires x != z
    ensures multiset(Replace(t, x, [z]))[c] ==
      if c == x then 0 else if c == z then multiset(t)[z] + multiset(t)[x] else multiset(t)[c]
  {
    if t != [] {
      var rest := t[1..];
      SwapCount(rest, x, z, c);
      assert t == [t[0]] + rest;
      assert multiset(t) == multiset([t[0]]) + multiset(rest);
      var h := if t[0] == x then [z] else [t[0]];
      assert multiset(Replace(t, x, [z])) == multiset(h) + multiset(Replace(rest, x, [z]));
    }
  }

  /** How often the rewrite holds `c`: a '.' for each comma, no comma, and every other
      character as often as the amount. */
  lemma NormalizeCount(t: string, c: char)
    ensures multiset(Normalize(t))[c] == if c == '.' then multiset(t)[','] else if c == ',' then 0 else multiset(t)[c]
  {
    var d := Replace(t, '.', "");
    assert "." == ['.'];
    SwapCount(d, ',', '.', c);
    RemoveCount(t, '.', c);
    RemoveCount(t, '.', ',');
    RemoveCount(t, '.', '.');
  }

  /** What the rewrite does, character by character: a thousands separator '.' disappears,
      the decimal comma becomes '.', and every other character is kept. */
  lemma NormalizeChars(t: string)
    ensures ',' !in Normalize(t)
    ensures multiset(Normalize(t))['.'] == multiset(t)[',']
    ensures forall c :: c != '.' && c != ',' ==> multiset(Normalize(t))[c] == multiset(t)[c]
  {
    NormalizeCount(t, ',');
    NormalizeCount(t, '.');
    forall c | c != '.' && c != ',' ensures multiset(Normalize(t))[c] == multiset(t)[c] {
      NormalizeCount(t, c);
    }
  }

  /** A thousands separator has no effect on the rewritten text. */
  lemma DotIgnored(a: string, b: string)
    ensures Normalize(a + "." + b) == Normalize(a + b)
  {
    assert Normalize(".") == [] by {
      assert Replace(".", '.', "") == "" + Replace([], '.', "");
    }
    calc {
      Normalize(a + "." + b);
    == { NormalizeAppend(a + ".", b); }
      Normalize(a + ".") + Normalize(b);
    == { NormalizeAppend(a, "."); }
      Normalize(a) + Normalize(b);
    == { NormalizeAppend(a, b); }
      Normalize(a + b);
    }
  }

  predicate AllDigits(d: string)
  {
    forall k :: 0 <= k < |d| ==> IsDigit(d[k])
  }

  function Pow10(n: nat): (r: nat)
    ensures r >= 1
  {
    if n == 0 then 1 else 10 * Pow10(n - 1)
  }

  /** The value of a string of decimal digits. */
  function DigitsValue(d: string): nat
    requires AllDigits(d)
  {
    if d == [] then 0 else 10 * DigitsValue(d[..|d| - 1]) + (d[|d| - 1] as int - '0' as int)
  }

  /** The value of the decimal numeral with integer digits `ip` and fraction digits `fp`. */
  function DecimalOf(ip: string, fp: string): real
    requires AllDigits(ip) && AllDigits(fp)
  {
    DigitsValue(ip) as real + DigitsValue(fp) as real / Pow10(|fp|) as real
  }

  /** Python's `float(m)` on a string without sign: digits with at most one decimal point and
      at least one digit (`12`, `12.`, `.5`, `12.50`); anything else raises, read here as None. */
  function UnsignedValue(m: string): Option<real>
  {
    if '.' !in m then
      if m != [] && AllDigits(m) then Some(DigitsValue(m) as real) else None
    else
      var i := IndexOf(m, '.');
      var ip, fp := m[..i], m[i + 1..];
      if AllDigits(ip) && AllDigits(fp) && |ip| + |fp| >= 1
      then Some(DecimalOf(ip, fp))
      else None
  }

  /** Python's `float(m)` for text made of an optional '-', digits and points. */
  function DecimalValue(m: string): Option<real>
  {
    if m != [] && m[0] == '-' then
      match UnsignedValue(m[1..])
      case None => None
      case Some(v) => Some(-v)
    else UnsignedValue(m)
  }

  /** `_to_float_ptbr(txt)` on the amount text of a remuneration line. The value is the exact
      decimal number; None where Python's `float` raises. */
  function ToFloatPtBr(t: string): Option<real>
    requires IsAmountText(t)
  {
    DecimalValue(Normalize(t))
  }

  /** A negative amount is read as the negation of the same amount without its sign: a
      leading '-' never makes the value disappear. */
  lemma NegativeKept(t: string)
    requires IsAmountRun(t)
    ensures IsAmountText("-" + t)
    ensures ToFloatPtBr("-" + t).Some? <==> ToFloatPtBr(t).Some?
    ensures ToFloatPtBr(t).Some? ==> ToFloatPtBr("-" + t).value == -ToFloatPtBr(t).value
  {
    assert ("-" + t)[1..] == t;
    NormalizeAppend("-", t);
    assert Normalize("-") == "-";
    var m := Normalize(t);
    NormalizedShape(t);
    assert m != [] ==> m[0] != '-';
    assert ("-" + m)[1..] == m;
  }

  /** A value is produced exactly when the amount holds a digit and at most one decimal comma. */
  lemma ValueIffWellFormed(t: string)
    requires IsAmountRun(t)
    ensures ToFloatPtBr(t).Some? <==> multiset(t)[','] <= 1 && exists k :: 0 <= k < |t| && IsDigit(t[k])
  {
    var m := Normalize(t);
    assert ToFloatPtBr(t) == UnsignedValue(m) by {
      NormalizedShape(t);
      assert m != [] ==> m[0] != '-';
    }
    assert UnsignedValue(m).Some? <==> multiset(m)['.'] <= 1 && exists k :: 0 <= k < |m| && IsDigit(m[k]) by {
      NormalizedShape(t);
      UnsignedIff(m);
    }
    assert multiset(m)['.'] == multiset(t)[','] by {
      NormalizeChars(t);
    }
    DigitsKept(t);
  }

  /** The rewrite keeps every digit: it holds one exactly when the amount does. */
  lemma DigitsKept(t: string)
    ensures (exists k :: 0 <= k < |Normalize(t)| && IsDigit(Normalize(t)[k])) <==> exists k :: 0 <= k < |t| && IsDigit(t[k])
  {
    var m := Normalize(t);
    NormalizeChars(t);
    if exists k :: 0 <= k < |t| && IsDigit(t[k]) {
      var k :| 0 <= k < |t| && IsDigit(t[k]);
      var c := t[k];
      assert multiset(m)[c] == multiset(t)[c] > 0;
      var j :| 0 <= j < |m| && m[j] == c;
    }
    if exists k :: 0 <= k < |m| && IsDigit(m[k]) {
      var k :| 0 <= k < |m| && IsDigit(m[k]);
      var c := m[k];
      assert multiset(t)[c] == multiset(m)[c] > 0;
      var j :| 0 <= j < |t| && t[j] == c;
    }
  }

  /** The rewrite of an unsigned amount holds only digits and points. */
  lemma {:induction false} NormalizedShape(t: string)
    requires forall k :: 0 <= k < |t| ==> IsAmountChar(t[k])
    ensures forall k :: 0 <= k < |Normalize(t)| ==> IsDigit(Normalize(t)[k]) || Normalize(t)[k] == '.'
  {
    if t != [] {
      assert t == [t[0]] + t[1..];
      NormalizeAppend([t[0]], t[1..]);
      NormalizedShape(t[1..]);
      assert Normalize([t[0]]) == if t[0] == '.' then [] else if t[0] == ',' then "." else [t[0]];
    }
  }

  /** On digits and points, `float` succeeds exactly when there is at most one point and a digit. */
  lemma UnsignedIff(m: string)
    requires forall k :: 0 <= k < |m| ==> IsDigit(m[k]) || m[k] == '.'
    ensures UnsignedValue(m).Some? <==> multiset(m)['.'] <= 1 && exists k :: 0 <= k < |m| && IsDigit(m[k])
  {
    if '.' !in m {
      UnsignedIffNoPoint(m);
    } else {
      UnsignedIffPoint(m);
    }
  }

  lemma UnsignedIffNoPoint(m: string)
    requires forall k :: 0 <= k < |m| ==> IsDigit(m[k]) || m[k] == '.'
    requires '.' !in m
    ensures UnsignedValue(m).Some? <==> multiset(m)['.'] <= 1 && exists k :: 0 <= k < |m| && IsDigit(m[k])
  {
    assert UnsignedValue(m).Some? <==> m != [] && AllDigits(m);
    assert multiset(m)['.'] == 0;
    if m != [] {
      assert IsDigit(m[0]);
    }
  }

  lemma UnsignedIffPoint(m: string)
    requires forall k :: 0 <= k < |m| ==> IsDigit(m[k]) || m[k] == '.'
    requires '.' in m
    ensures UnsignedValue(m).Some? <==> multiset(m)['.'] <= 1 && exists k :: 0 <= k < |m| && IsDigit(m[k])
  {
    var i := IndexOf(m, '.');
    var ip, fp := m[..i], m[i + 1..];
    assert UnsignedValue(m).Some? <==> AllDigits(ip) && AllDigits(fp) && |ip| + |fp| >= 1;
    PointCount(m, i);
    DigitAround(m, i);
  }

  /** The first point of `m` sits in front of every other one. */
  lemma PointCount(m: string, i: nat)
    requires forall k :: 0 <= k < |m| ==> IsDigit(m[k]) || m[k] == '.'
    requires i < |m| && m[i] == '.' && '.' !in m[..i]
    ensures AllDigits(m[..i])
    ensures multiset(m)['.'] <= 1 <==> AllDigits(m[i + 1..])
  {
    var ip, fp := m[..i], m[i + 1..];
    assert m == ip + ['.'] + fp;
    assert multiset(m)['.'] == 1 + multiset(fp)['.'] by {
      assert '.' !in multiset(ip);
    }
    assert AllDigits(fp) <==> '.' !in fp;
    assert '.' !in fp <==> multiset(fp)['.'] == 0;
  }

  /** With the fraction all digits, `m` holds a digit exactly when a point is not all of it. */
  lemma DigitAround(m: string, i: nat)
    requires forall k :: 0 <= k < |m| ==> IsDigit(m[k]) || m[k] == '.'
    requires i < |m| && m[i] == '.' && '.' !in m[..i]
    ensures AllDigits(m[i + 1..]) ==> ((exists k :: 0 <= k < |m| && IsDigit(m[k])) <==> |m| >= 2)
  {
    var ip, fp := m[..i], m[i + 1..];
    if exists k :: 0 <= k < |m| && IsDigit(m[k]) {
      var k :| 0 <= k < |m| && IsDigit(m[k]);
      assert k != i;
    }
    if AllDigits(fp) && |m| >= 2 {
      if i > 0 {
        assert ip[0] == m[0] && m[0] != '.';
        assert IsDigit(m[0]);
      } else {
        assert IsDigit(fp[0]) && fp[0] == m[1];
      }
    }
  }

  /** Removing the points from digits and points leaves digits only, and a digit survives. */
  lemma {:induction false} DropPoints(i: string)
    requires forall k :: 0 <= k < |i| ==> IsDigit(i[k]) || i[k] == '.'
    ensures AllDigits(Replace(i, '.', ""))
    ensures (exists k :: 0 <= k < |i| && IsDigit(i[k])) ==> Replace(i, '.', "") != []
  {
    if i != [] {
      DropPoints(i[1..]);
      if exists k :: 0 <= k < |i| && IsDigit(i[k]) {
        var k :| 0 <= k < |i| && IsDigit(i[k]);
        if k > 0 { assert IsDigit(i[1..][k - 1]); }
      }
    }
  }

  /** Replacing a character that does not occur changes nothing. */
  lemma {:induction false} ReplaceAbsent(d: string, x: char, y: string)
    requires x !in d
    ensures Replace(d, x, y) == d
  {
    if d != [] {
      assert d[0] != x;
      ReplaceAbsent(d[1..], x, y);
    }
  }

  /** The rewrite of "1.234,56" is "1234.56". */
  lemma NormalizeCommaDecimal(i: string, f: string)
    requires forall k :: 0 <= k < |i| ==> IsDigit(i[k]) || i[k] == '.'
    requires AllDigits(f)
    ensures Normalize(i + "," + f) == Replace(i, '.', "") + "." + f
  {
    var d := Replace(i, '.', "");
    DropPoints(i);
    assert ',' !in d;
    assert '.' !in f && ',' !in f;
    assert Normalize(",") == ".";
    ReplaceAbsent(d, ',', ".");
    ReplaceAbsent(f, '.', "");
    ReplaceAbsent(f, ',', ".");
    NormalizeAppend(i + ",", f);
    NormalizeAppend(i, ",");
  }

  /** `float` of "1234.56". */
  lemma UnsignedDecimal(d: string, f: string)
    requires AllDigits(d) && AllDigits(f) && |d| + |f| >= 1
    ensures UnsignedValue(d + "." + f) == Some(DecimalOf(d, f))
  {
    var m := d + "." + f;
    assert '.' !in d;
    assert m[|d|] == '.';
    var i := IndexOf(m, '.');
    assert i == |d|;
    assert m[..i] == d && m[i + 1..] == f;
  }

  /** A Brazilian amount with thousands points and a decimal comma ("1.234,56") reads as the
      number whose integer digits are those before the comma, the points dropped, and whose
      fraction digits are those after it. */
  lemma CommaDecimal(i: string, f: string)
    requires forall k :: 0 <= k < |i| ==> IsDigit(i[k]) || i[k] == '.'
    requires AllDigits(f)
    requires f != [] || exists k :: 0 <= k < |i| && IsDigit(i[k])
    ensures IsAmountText(i + "," + f)
    ensures AllDigits(Replace(i, '.', ""))
    ensures ToFloatPtBr(i + "," + f) ==
      Some(DecimalOf(Replace(i, '.', ""), f))
  {
    var t := i + "," + f;
    assert IsAmountRun(t) by {
      forall k | 0 <= k < |t| ensures IsAmountChar(t[k]) {
        if k < |i| { assert t[k] == i[k]; } else if k > |i| { assert t[k] == f[k - |i| - 1]; }
      }
    }
    DropPoints(i);
    NormalizeCommaDecimal(i, f);
    var d := Replace(i, '.', "");
    UnsignedDecimal(d, f);
    if d != [] { assert (d + "." + f)[0] == d[0]; } else { assert (d + "." + f)[0] == '.'; }
  }

  /** An amount without a comma ("1.234") reads as the whole number its digits spell, the
      points being thousands separators. */
  lemma WholeAmount(i: string)
    requires forall k :: 0 <= k < |i| ==> IsDigit(i[k]) || i[k] == '.'
    requires exists k :: 0 <= k < |i| && IsDigit(i[k])
    ensures IsAmountText(i)
    ensures AllDigits(Replace(i, '.', ""))
    ensures ToFloatPtBr(i) == Some(DigitsValue(Replace(i, '.', "")) as real)
  {
    var d := Replace(i, '.', "");
    DropPoints(i);
    assert IsAmountText(i) by {
      assert IsAmountRun(i);
    }
    assert Normalize(i) == d by {
      assert ',' !in d;
      ReplaceAbsent(d, ',', ".");
    }
    assert DecimalValue(d) == Some(DigitsValue(d) as real) by {
      assert d[0] != '-' && '.' !in d;
    }
  }
}
