/** `parse_cnis`: identification search, then one pass over the lines of the text in which a
    line naming the employment type "Empregado" opens a new employment record and the lines
    after it, up to the next such line, form that record's block. */
module ParserCnis {
  import opened Common
  import opened Chars
  import opened Amount
  import opened Columns
  import opened Patterns
  import opened Extract

  /** One entry of `remuneracoes`: the month/year and the amount read from it. */
  datatype Remuneracao = Remuneracao(competencia: string, valor: Option<real>)

  /** One employment record (`vinculo`). */
  datatype Vinculo = Vinculo(
    tipoVinculo: string,
    dataInicio: Option<string>,
    dataFim: Option<string>,
    ultimaRemuneracao: Option<string>,
    matricula: Option<string>,
    indicadores: seq<string>,
    remuneracoes: seq<Remuneracao>)

  /** The `identificacao` dictionary: a key that is absent is None. */
  datatype Identificacao = Identificacao(cpf: Option<string>, nit: Option<string>)

  datatype Resultado = Resultado(identificacao: Identificacao, vinculos: seq<Vinculo>)

  // ---------------------------------------------------------------------------
  // Identification
  // ---------------------------------------------------------------------------

  /** `m.group(1).strip()` for the leftmost match `m` of `pat` in `texto`, None without a match. */
  function FirstGroup(pat: Pattern, texto: string): (r: Option<string>)
    ensures r.Some? <==> exists p: nat :: p <= |texto| && MatchAt(pat, texto, p).Some?
    ensures r.Some? ==> exists p: nat ::
      && p <= |texto| && MatchAt(pat, texto, p).Some?
      && (forall q: nat :: q < p ==> MatchAt(pat, texto, q).None?)
      && r.value == Strip(MatchAt(pat, texto, p).value.group1)
  {
    match Search(pat, texto, 0)
    case None => None
    case Some(p) => Some(Strip(MatchAt(pat, texto, p).value.group1))
  }

  /** Stripping changes nothing in a string without whitespace. */
  lemma StripNoSpace(s: string)
    requires forall k :: 0 <= k < |s| ==> !IsSpace(s[k])
    ensures Strip(s) == s
  {
    StripBounds(s);
    if s != [] {
      assert !IsSpace(s[0]) && !IsSpace(s[|s| - 1]);
    }
  }

  /** The CPF and NIT values are the capture of the leftmost labelled match, unchanged by the
      strip: a non-empty run of digits, points and dashes. */
  lemma IdentifierIsCapture(pat: Pattern, texto: string)
    requires pat.Cpf? || pat.Nit?
    ensures FirstGroup(pat, texto).Some? ==>
      var v := FirstGroup(pat, texto).value;
      && v != [] && (forall k :: 0 <= k < |v| ==> IsIdChar(v[k]))
      && exists p: nat :: p <= |texto| && MatchAt(pat, texto, p).Some? && v == MatchAt(pat, texto, p).value.group1
  {
    match Search(pat, texto, 0)
    case None =>
    case Some(p) =>
      var g := MatchAt(pat, texto, p).value.group1;
      StripNoSpace(g);
  }

  // ---------------------------------------------------------------------------
  // Line classification
  // ---------------------------------------------------------------------------

  /** The line holds nothing but whitespace. */
  predicate IsBlank(linha: string)
  {
    forall k :: 0 <= k < |linha| ==> IsSpace(linha[k])
  }

  /** The test `not linha.rstrip().strip()` holds exactly for the blank lines. */
  lemma BlankIff(linha: string)
    ensures Strip(RStrip(linha)) == [] <==> IsBlank(linha)
  {
    var r := RStrip(linha);
    StripEmptyIff(r);
    assert forall k :: 0 <= k < |r| ==> r[k] == linha[k];
  }

  /** The line is a trigger: after `rstrip` it is not blank and one of its columns holds the
      word "Empregado". */
  predicate IsTrigger(linha: string)
  {
    && !IsBlank(linha)
    && var cols := SplitCols(RStrip(linha));
      cols != [] && exists k :: 0 <= k < |cols| && HasEmployeeWord(cols[k])
  }

  /** What `RE_REMUN.search(ln)` yields for one block line: the leftmost match's month/year and
      the value read from its amount. */
  function RemunOf(ln: string): Option<Remuneracao>
  {
    match Search(Remuneration, ln, 0)
    case None => None
    case Some(p) =>
      var m := MatchAt(Remuneration, ln, p).value;
      Some(Remuneracao(m.group1, ToFloatPtBr(m.group2)))
  }

  /** A line yields an entry exactly when the remuneration pattern matches somewhere in it; the
      entry is the leftmost match's `MM/AAAA` and the value of its amount. */
  lemma RemunOfLeftmost(ln: string)
    ensures RemunOf(ln).Some? <==> exists p: nat :: p <= |ln| && MatchAt(Remuneration, ln, p).Some?
    ensures RemunOf(ln).Some? ==> exists p: nat ::
      && p <= |ln| && MatchAt(Remuneration, ln, p).Some?
      && (forall q: nat :: q < p ==> MatchAt(Remuneration, ln, q).None?)
      && MonthYearShape(ln, p) && RemunOf(ln).value.competencia == ln[p..p + 7]
      && RemunOf(ln).value.valor == ToFloatPtBr(MatchAt(Remuneration, ln, p).value.group2)
  {
  }

  /** The record a trigger line opens, before any block line is read. */
  function Opened(linha: string): Vinculo
  {
    var cols := SplitCols(RStrip(linha));
    Vinculo("EMPREGADO", Nth(Texts(Date, cols), 0), Nth(Texts(Date, cols), 1), None, None, Indicadores(cols), [])
  }

  // ---------------------------------------------------------------------------
  // The records, as a function of what the loop body derives from each line
  // ---------------------------------------------------------------------------

  /** What the loop body derives from one line: whether it is skipped, whether it is a trigger,
      the line after `rstrip`, the month/years in it, the record it would open, and the entry it
      would add. */
  datatype LineInfo = LineInfo(blank: bool, trigger: bool, ln: string, meses: seq<string>, header: Vinculo, entry: Option<Remuneracao>)

  function Info(linha: string): LineInfo
  {
    var ln := RStrip(linha);
    LineInfo(IsBlank(linha), IsTrigger(linha), ln, FindAll(MonthYear, ln), Opened(linha), RemunOf(ln))
  }

  function Infos(linhas: seq<string>): (infos: seq<LineInfo>)
    ensures |infos| == |linhas|
  {
    seq(|linhas|, j requires 0 <= j < |linhas| => Info(linhas[j]))
  }

  function TriggerFlags(infos: seq<LineInfo>): (f: seq<bool>)
    ensures |f| == |infos|
  {
    seq(|infos|, j requires 0 <= j < |infos| => infos[j].trigger)
  }

  function NonBlankFlags(infos: seq<LineInfo>): (f: seq<bool>)
    ensures |f| == |infos|
  {
    seq(|infos|, j requires 0 <= j < |infos| => !infos[j].blank)
  }

  function EntryFlags(infos: seq<LineInfo>): (f: seq<bool>)
    ensures |f| == |infos|
  {
    seq(|infos|, j requires 0 <= j < |infos| => !infos[j].blank && infos[j].entry.Some?)
  }

  /** The positions below `n` of the trigger lines, in increasing order. */
  function TriggerIdx(infos: seq<LineInfo>, n: nat): seq<nat>
    requires n <= |infos|
  {
    Positions(TriggerFlags(infos), 0, n)
  }

  /** The right-stripped lines of the table. */
  function Lns(infos: seq<LineInfo>): (ls: seq<string>)
    ensures |ls| == |infos|
  {
    seq(|infos|, j requires 0 <= j < |infos| => infos[j].ln)
  }

  /** The month/years of each line of the table. */
  function MesesOf(infos: seq<LineInfo>): (ms: seq<seq<string>>)
    ensures |ms| == |infos|
  {
    seq(|infos|, j requires 0 <= j < |infos| => infos[j].meses)
  }

  /** The entry of each line of the table; lines without one get a placeholder that is never picked. */
  function EntryVals(infos: seq<LineInfo>): (es: seq<Remuneracao>)
    ensures |es| == |infos|
  {
    seq(|infos|, j requires 0 <= j < |infos| => if infos[j].entry.Some? then infos[j].entry.value else Remuneracao("", None))
  }

  /** The block buffer (`bloco_linhas`) of the record opened at line `t`, once the lines before
      `n` have been read: the non-blank lines after `t`, right-stripped. */
  function BlockLines(infos: seq<LineInfo>, t: nat, n: nat): seq<string>
    requires n <= |infos|
  {
    Pick(NonBlankFlags(infos), Lns(infos), t + 1, n)
  }

  /** The `remuneracoes` of the record opened at line `t`, once the lines before `n` have been
      read: the entry of each non-blank line after `t` that has one. */
  function Entries(infos: seq<LineInfo>, t: nat, n: nat): seq<Remuneracao>
    requires n <= |infos|
  {
    Pick(EntryFlags(infos), EntryVals(infos), t + 1, n)
  }

  /** Reading line `i` after `t` adds it to the block when it is not blank. */
  lemma BlockNext(infos: seq<LineInfo>, t: nat, i: nat)
    requires t < i < |infos|
    ensures BlockLines(infos, t, i + 1) == BlockLines(infos, t, i) + (if NonBlankFlags(infos)[i] then [infos[i].ln] else [])
  {
    PickNext(NonBlankFlags(infos), Lns(infos), t + 1, i);
  }

  /** Reading line `i` after `t` adds its entry when it has one. */
  lemma EntriesNext(infos: seq<LineInfo>, t: nat, i: nat)
    requires t < i < |infos|
    ensures Entries(infos, t, i + 1) == Entries(infos, t, i) + (if EntryFlags(infos)[i] then [infos[i].entry.value] else [])
  {
    PickNext(EntryFlags(infos), EntryVals(infos), t + 1, i);
  }

  /** The block lines are the non-blank lines strictly between `t` and `n`, one for one. */
  lemma BlockLinesAt(infos: seq<LineInfo>, t: nat, n: nat)
    requires n <= |infos|
    ensures |BlockLines(infos, t, n)| == |Positions(NonBlankFlags(infos), t + 1, n)|
    ensures forall m :: 0 <= m < |BlockLines(infos, t, n)| ==>
      BlockLines(infos, t, n)[m] == infos[Positions(NonBlankFlags(infos), t + 1, n)[m]].ln
  {
    PickAt(NonBlankFlags(infos), Lns(infos), t + 1, n);
  }

  /** Each entry comes from its own non-blank line strictly between `t` and `n`, in line order,
      and every such line with a match gives exactly one. */
  lemma EntriesAt(infos: seq<LineInfo>, t: nat, n: nat)
    requires n <= |infos|
    ensures |Entries(infos, t, n)| == |Positions(EntryFlags(infos), t + 1, n)|
    ensures forall m :: 0 <= m < |Entries(infos, t, n)| ==>
      Entries(infos, t, n)[m] == infos[Positions(EntryFlags(infos), t + 1, n)[m]].entry.value
  {
    var f := EntryFlags(infos);
    PickAt(f, EntryVals(infos), t + 1, n);
    forall m | 0 <= m < |Entries(infos, t, n)|
      ensures Entries(infos, t, n)[m] == infos[Positions(f, t + 1, n)[m]].entry.value
    {
      var p := Positions(f, t + 1, n)[m];
      assert f[p];
    }
  }

  /** The record opened at trigger `t` once the lines before `e` have been read: its entries so
      far, its last month/year still unset. */
  function Open(infos: seq<LineInfo>, t: nat, e: nat): Vinculo
    requires t < |infos| && e <= |infos|
  {
    infos[t].header.(remuneracoes := Entries(infos, t, e))
  }

  /** The last month/year in the block of the record opened at line `t`, once the lines before
      `e` have been read. */
  function Ultima(infos: seq<LineInfo>, t: nat, e: nat): Option<string>
    requires e <= |infos|
  {
    Last(Concat(Pick(NonBlankFlags(infos), MesesOf(infos), t + 1, e)))
  }

  /** The record of trigger `t` closed at line `e`: the last month/year of its block filled in. */
  function Record(infos: seq<LineInfo>, t: nat, e: nat): Vinculo
    requires t < |infos| && e <= |infos|
  {
    Open(infos, t, e).(ultimaRemuneracao := Ultima(infos, t, e))
  }

  /** The month/years of the table are those `findall` reports in each right-stripped line. */
  predicate MesesFound(infos: seq<LineInfo>)
  {
    forall j :: 0 <= j < |infos| ==> infos[j].meses == FindAll(MonthYear, infos[j].ln)
  }

  lemma InfosMeses(linhas: seq<string>)
    ensures MesesFound(Infos(linhas))
  {
    forall j | 0 <= j < |linhas| ensures Infos(linhas)[j].meses == FindAll(MonthYear, Infos(linhas)[j].ln) {
      assert Infos(linhas)[j] == Info(linhas[j]);
    }
  }

  /** The last month/year of a block is the last one `findall` reports in its lines. */
  lemma UltimaOfBlock(infos: seq<LineInfo>, t: nat, e: nat)
    requires e <= |infos| && MesesFound(infos)
    ensures Ultima(infos, t, e) == Last(Texts(MonthYear, BlockLines(infos, t, e)))
  {
    var ms, ls := MesesOf(infos), Lns(infos);
    assert forall j :: t + 1 <= j < e ==> ms[j] == FindAll(MonthYear, ls[j]) by {
      forall j | t + 1 <= j < e ensures ms[j] == FindAll(MonthYear, ls[j]) {
        assert ms[j] == infos[j].meses && ls[j] == infos[j].ln;
      }
    }
    TextsPick(MonthYear, NonBlankFlags(infos), ms, ls, t + 1, e);
  }

  /** The records of the triggers `ts`, each closed at the next trigger, the last one at `e`. */
  function Records(infos: seq<LineInfo>, ts: seq<nat>, e: nat): (vs: seq<Vinculo>)
    requires forall m :: 0 <= m < |ts| ==> ts[m] < |infos|
    requires e <= |infos|
    ensures |vs| == |ts|
  {
    if ts == [] then []
    else Records(infos, ts[..|ts| - 1], ts[|ts| - 1]) + [Record(infos, ts[|ts| - 1], e)]
  }

  /** Appending a trigger keeps the records before it and closes the previous last one there. */
  lemma RecordsInit(infos: seq<LineInfo>, ts: seq<nat>, e: nat, m: nat)
    requires forall l :: 0 <= l < |ts| ==> ts[l] < |infos|
    requires e <= |infos| && m + 1 < |ts|
    ensures Records(infos, ts, e)[m] == Records(infos, ts[..|ts| - 1], ts[|ts| - 1])[m]
  {
  }

  /** Record `m` is the one of trigger `ts[m]`, closed at the next trigger or at `e`. */
  lemma {:induction false} RecordsAt(infos: seq<LineInfo>, ts: seq<nat>, e: nat, m: nat)
    requires forall l :: 0 <= l < |ts| ==> ts[l] < |infos|
    requires e <= |infos| && m < |ts|
    ensures Records(infos, ts, e)[m] == Record(infos, ts[m], if m + 1 < |ts| then ts[m + 1] else e)
    decreases |ts|
  {
    var k := |ts| - 1;
    var init := ts[..k];
    if m < k {
      RecordsInit(infos, ts, e, m);
      RecordsAt(infos, init, ts[k], m);
      assert init[m] == ts[m];
      if m + 1 < k {
        assert init[m + 1] == ts[m + 1];
      }
    }
  }

  // ---------------------------------------------------------------------------
  // What the result says about the lines of the text
  // ---------------------------------------------------------------------------

  /** The trigger flag of a line, in terms of the line itself. */
  lemma TriggerFlagOf(linhas: seq<string>, j: nat)
    requires j < |linhas|
    ensures TriggerFlags(Infos(linhas))[j] == IsTrigger(linhas[j])
  {
    var infos := Infos(linhas);
    assert TriggerFlags(infos)[j] == infos[j].trigger;
  }

  /** The non-blank flag of a line, in terms of the line itself. */
  lemma NonBlankFlagOf(linhas: seq<string>, j: nat)
    requires j < |linhas|
    ensures NonBlankFlags(Infos(linhas))[j] == !IsBlank(linhas[j])
  {
    var infos := Infos(linhas);
    assert NonBlankFlags(infos)[j] == !infos[j].blank;
  }

  /** The entry flag of a line, in terms of the line itself. */
  lemma EntryFlagOf(linhas: seq<string>, j: nat)
    requires j < |linhas|
    ensures EntryFlags(Infos(linhas))[j] == (!IsBlank(linhas[j]) && RemunOf(RStrip(linhas[j])).Some?)
  {
    var infos := Infos(linhas);
    assert EntryFlags(infos)[j] == (!infos[j].blank && infos[j].entry.Some?);
  }

  /** The table flags and fields in terms of the lines themselves. */
  lemma LineFlags(linhas: seq<string>, j: nat)
    requires j < |linhas|
    ensures TriggerFlags(Infos(linhas))[j] == IsTrigger(linhas[j])
    ensures NonBlankFlags(Infos(linhas))[j] == !IsBlank(linhas[j])
    ensures EntryFlags(Infos(linhas))[j] == (!IsBlank(linhas[j]) && RemunOf(RStrip(linhas[j])).Some?)
    ensures Infos(linhas)[j].ln == RStrip(linhas[j])
    ensures Infos(linhas)[j].entry == RemunOf(RStrip(linhas[j]))
    ensures Infos(linhas)[j].header == Opened(linhas[j])
  {
    TriggerFlagOf(linhas, j);
    NonBlankFlagOf(linhas, j);
    EntryFlagOf(linhas, j);
  }

  /** The trigger lines of the text: every one of them, in increasing order. */
  function TriggerLines(linhas: seq<string>): (ts: seq<nat>)
    ensures forall m :: 0 <= m < |ts| ==> ts[m] < |linhas| && IsTrigger(linhas[ts[m]])
    ensures forall m, l :: 0 <= m < l < |ts| ==> ts[m] < ts[l]
    ensures forall j :: 0 <= j < |linhas| && IsTrigger(linhas[j]) ==> j in ts
  {
    var infos := Infos(linhas);
    var ts := TriggerIdx(infos, |infos|);
    assert forall j :: 0 <= j < |linhas| ==> TriggerFlags(infos)[j] == IsTrigger(linhas[j]) by {
      forall j | 0 <= j < |linhas| ensures TriggerFlags(infos)[j] == IsTrigger(linhas[j]) {
        TriggerFlagOf(linhas, j);
      }
    }
    ts
  }

  /** Where the block of record `m` ends: at the next trigger line, or at the end of the text. */
  function BlockEnd(linhas: seq<string>, m: nat): (e: nat)
    requires m < |TriggerLines(linhas)|
    ensures TriggerLines(linhas)[m] < e <= |linhas|
    ensures forall j :: TriggerLines(linhas)[m] < j < e ==> !IsTrigger(linhas[j])
  {
    var ts := TriggerLines(linhas);
    var e := if m + 1 < |ts| then ts[m + 1] else |linhas|;
    assert forall j :: ts[m] < j < e ==> !IsTrigger(linhas[j]) by {
      forall j | ts[m] < j < e ensures !IsTrigger(linhas[j]) {
        PositionsGap(TriggerFlags(Infos(linhas)), 0, |linhas|, m, j);
        TriggerFlagOf(linhas, j);
      }
    }
    e
  }

  /** The non-blank lines strictly between `t` and `e`, in increasing order. */
  function NonBlankLines(linhas: seq<string>, t: nat, e: nat): (ps: seq<nat>)
    requires e <= |linhas|
    ensures forall k :: 0 <= k < |ps| ==> t < ps[k] < e && !IsBlank(linhas[ps[k]])
    ensures forall k, l :: 0 <= k < l < |ps| ==> ps[k] < ps[l]
    ensures forall j :: t < j < e && !IsBlank(linhas[j]) ==> j in ps
  {
    var ps := Positions(NonBlankFlags(Infos(linhas)), t + 1, e);
    assert forall j :: 0 <= j < |linhas| ==> NonBlankFlags(Infos(linhas))[j] == !IsBlank(linhas[j]) by {
      forall j | 0 <= j < |linhas| ensures NonBlankFlags(Infos(linhas))[j] == !IsBlank(linhas[j]) {
        NonBlankFlagOf(linhas, j);
      }
    }
    ps
  }

  /** The non-blank lines strictly between `t` and `e` in which the remuneration pattern
      matches, in increasing order. */
  function EntryLines(linhas: seq<string>, t: nat, e: nat): (ps: seq<nat>)
    requires e <= |linhas|
    ensures forall k :: 0 <= k < |ps| ==>
      t < ps[k] < e && !IsBlank(linhas[ps[k]]) && RemunOf(RStrip(linhas[ps[k]])).Some?
    ensures forall k, l :: 0 <= k < l < |ps| ==> ps[k] < ps[l]
    ensures forall j :: t < j < e && !IsBlank(linhas[j]) && RemunOf(RStrip(linhas[j])).Some? ==> j in ps
  {
    var ps := Positions(EntryFlags(Infos(linhas)), t + 1, e);
    assert forall j :: 0 <= j < |linhas| ==>
      EntryFlags(Infos(linhas))[j] == (!IsBlank(linhas[j]) && RemunOf(RStrip(linhas[j])).Some?) by {
      forall j | 0 <= j < |linhas|
        ensures EntryFlags(Infos(linhas))[j] == (!IsBlank(linhas[j]) && RemunOf(RStrip(linhas[j])).Some?)
      {
        EntryFlagOf(linhas, j);
      }
    }
    ps
  }

  /** The employment records `parse_cnis` builds from the lines of the text: one per trigger line. */
  function Vinculos(linhas: seq<string>): (vs: seq<Vinculo>)
    ensures |vs| == |TriggerLines(linhas)|
    ensures vs == [] <==> forall j :: 0 <= j < |linhas| ==> !IsTrigger(linhas[j])
  {
    Records(Infos(linhas), TriggerLines(linhas), |linhas|)
  }

  /** What `parse_cnis` returns. */
  function Parse(texto: string): Resultado
  {
    Resultado(Identificacao(FirstGroup(Cpf, texto), FirstGroup(Nit, texto)), Vinculos(SplitOn(texto, '\n')))
  }

  /** The entries of a block, read off the lines: one per line with a match, in line order. */
  lemma EntriesOfLines(linhas: seq<string>, t: nat, e: nat)
    requires e <= |linhas|
    ensures var ps := EntryLines(linhas, t, e);
      && |Entries(Infos(linhas), t, e)| == |ps|
      && forall k :: 0 <= k < |ps| ==> RemunOf(RStrip(linhas[ps[k]])) == Some(Entries(Infos(linhas), t, e)[k])
  {
    var infos := Infos(linhas);
    EntriesAt(infos, t, e);
    var ps := EntryLines(linhas, t, e);
    assert ps == Positions(EntryFlags(infos), t + 1, e);
    forall k | 0 <= k < |ps| ensures RemunOf(RStrip(linhas[ps[k]])) == Some(Entries(infos, t, e)[k]) {
      assert Entries(infos, t, e)[k] == infos[ps[k]].entry.value;
      LineFlags(linhas, ps[k]);
    }
  }

  /** The block buffer, read off the lines: the non-blank ones, right-stripped, in line order. */
  lemma BlockOfLines(linhas: seq<string>, t: nat, e: nat)
    requires e <= |linhas|
    ensures var ps := NonBlankLines(linhas, t, e);
      BlockLines(Infos(linhas), t, e) == seq(|ps|, k requires 0 <= k < |ps| => RStrip(linhas[ps[k]]))
  {
    var infos := Infos(linhas);
    BlockLinesAt(infos, t, e);
    var ps := NonBlankLines(linhas, t, e);
    assert ps == Positions(NonBlankFlags(infos), t + 1, e);
    var bloco := seq(|ps|, k requires 0 <= k < |ps| => RStrip(linhas[ps[k]]));
    forall k | 0 <= k < |ps| ensures bloco[k] == BlockLines(infos, t, e)[k] {
      assert BlockLines(infos, t, e)[k] == infos[ps[k]].ln;
      LineFlags(linhas, ps[k]);
    }
  }

  /** Record `m` is the record of the `m`-th trigger line, closed where its block ends. */
  lemma RecordOf(linhas: seq<string>, m: nat)
    requires m < |Vinculos(linhas)|
    ensures var t, e := TriggerLines(linhas)[m], BlockEnd(linhas, m);
      && Vinculos(linhas)[m] == Record(Infos(linhas), t, e)
      && Vinculos(linhas)[m].remuneracoes == Entries(Infos(linhas), t, e)
      && Vinculos(linhas)[m].ultimaRemuneracao == Last(Texts(MonthYear, BlockLines(Infos(linhas), t, e)))
  {
    RecordsAt(Infos(linhas), TriggerLines(linhas), |linhas|, m);
    InfosMeses(linhas);
    UltimaOfBlock(Infos(linhas), TriggerLines(linhas)[m], BlockEnd(linhas, m));
  }

  /** Every record is an employee record opened by a trigger line, in the order of those lines:
      its dates are the first and second dates among that line's columns, its indicators the
      short upper-case columns, and no registration number is read. */
  lemma RecordHeader(linhas: seq<string>, m: nat)
    requires m < |Vinculos(linhas)|
    ensures var cols := SplitCols(RStrip(linhas[TriggerLines(linhas)[m]]));
      var v := Vinculos(linhas)[m];
      && v.tipoVinculo == "EMPREGADO" && v.matricula == None
      && v.dataInicio == Nth(Texts(Date, cols), 0) && v.dataFim == Nth(Texts(Date, cols), 1)
      && v.indicadores == Indicadores(cols)
  {
    RecordOf(linhas, m);
    LineFlags(linhas, TriggerLines(linhas)[m]);
  }

  /** The remuneration entries of record `m` are those of the lines of its own block, one per
      line with a match, in line order: nothing before the first trigger line, and nothing from
      another record's block, is counted. */
  lemma RecordRemuneracoes(linhas: seq<string>, m: nat)
    requires m < |Vinculos(linhas)|
    ensures var rs := Vinculos(linhas)[m].remuneracoes;
      var ps := EntryLines(linhas, TriggerLines(linhas)[m], BlockEnd(linhas, m));
      && |rs| == |ps|
      && forall k :: 0 <= k < |rs| ==> RemunOf(RStrip(linhas[ps[k]])) == Some(rs[k])
  {
    RecordOf(linhas, m);
    EntriesOfLines(linhas, TriggerLines(linhas)[m], BlockEnd(linhas, m));
  }

  /** The block of record `m`: the right-stripped non-blank lines after its trigger line, up
      to where the block ends, in line order. */
  function Block(linhas: seq<string>, m: nat): (bloco: seq<string>)
    requires m < |TriggerLines(linhas)|
    ensures var ps := NonBlankLines(linhas, TriggerLines(linhas)[m], BlockEnd(linhas, m));
      |bloco| == |ps| && forall k :: 0 <= k < |ps| ==> bloco[k] == RStrip(linhas[ps[k]])
  {
    var t, e := TriggerLines(linhas)[m], BlockEnd(linhas, m);
    BlockOfLines(linhas, t, e);
    BlockLines(Infos(linhas), t, e)
  }

  /** The last month/year of record `m` is the last one found in its own block. */
  lemma RecordUltima(linhas: seq<string>, m: nat)
    requires m < |Vinculos(linhas)|
    ensures Vinculos(linhas)[m].ultimaRemuneracao == Last(Texts(MonthYear, Block(linhas, m)))
  {
    RecordOf(linhas, m);
  }

  // ---------------------------------------------------------------------------
  // parse_cnis
  // ---------------------------------------------------------------------------

  /** The state of the line loop after the lines before `i`: with no trigger yet, nothing is
      open; otherwise the records before the last trigger are closed, the last is open, and
      the buffer holds its block so far. */
  predicate LoopState(infos: seq<LineInfo>, i: nat, vinculos: seq<Vinculo>, atual: Option<Vinculo>, bloco: seq<string>)
    requires i <= |infos|
  {
    var ts := TriggerIdx(infos, i);
    if ts == [] then atual.None? && vinculos == [] && bloco == []
    else
      var t := ts[|ts| - 1];
      && vinculos == Records(infos, ts[..|ts| - 1], t)
      && bloco == BlockLines(infos, t, i)
      && atual == Some(Open(infos, t, i))
  }

  lemma TriggerIdxNext(infos: seq<LineInfo>, i: nat)
    requires i < |infos|
    ensures TriggerIdx(infos, i + 1) == TriggerIdx(infos, i) + (if TriggerFlags(infos)[i] then [i] else [])
  {
  }

  /** The flags are the fields of the line table. */
  lemma Flags(infos: seq<LineInfo>, i: nat)
    requires i < |infos|
    ensures TriggerFlags(infos)[i] == infos[i].trigger
    ensures NonBlankFlags(infos)[i] == !infos[i].blank
    ensures EntryFlags(infos)[i] == (!infos[i].blank && infos[i].entry.Some?)
  {
  }

  /** A blank line changes nothing. */
  lemma StepBlank(infos: seq<LineInfo>, i: nat, vinculos: seq<Vinculo>, atual: Option<Vinculo>, bloco: seq<string>)
    requires i < |infos| && !NonBlankFlags(infos)[i] && !TriggerFlags(infos)[i] && !EntryFlags(infos)[i]
    requires LoopState(infos, i, vinculos, atual, bloco)
    ensures LoopState(infos, i + 1, vinculos, atual, bloco)
  {
    var ts := TriggerIdx(infos, i);
    assert TriggerIdx(infos, i + 1) == ts by {
      TriggerIdxNext(infos, i);
      assert ts + [] == ts;
    }
    if ts != [] {
      var t := ts[|ts| - 1];
      assert BlockLines(infos, t, i + 1) == BlockLines(infos, t, i) by {
        BlockNext(infos, t, i);
      }
      assert Entries(infos, t, i + 1) == Entries(infos, t, i) by {
        EntriesNext(infos, t, i);
      }
      assert Open(infos, t, i + 1) == Open(infos, t, i);
    }
  }

  /** Closing the open record, if any, with the last month/year of its buffer gives the record
      of its trigger closed at line `i`. */
  lemma ClosedRecord(infos: seq<LineInfo>, i: nat, vinculos: seq<Vinculo>, atual: Option<Vinculo>, bloco: seq<string>)
    requires i <= |infos| && LoopState(infos, i, vinculos, atual, bloco) && MesesFound(infos)
    ensures var ts := TriggerIdx(infos, i);
      && (atual.None? <==> ts == [])
      && (atual.Some? ==> atual.value.(ultimaRemuneracao := Last(Texts(MonthYear, bloco))) == Record(infos, ts[|ts| - 1], i))
  {
    var ts := TriggerIdx(infos, i);
    if ts != [] {
      var t := ts[|ts| - 1];
      assert bloco == BlockLines(infos, t, i) && atual == Some(Open(infos, t, i));
      assert Ultima(infos, t, i) == Last(Texts(MonthYear, bloco)) by {
        UltimaOfBlock(infos, t, i);
      }
    }
  }

  /** A trigger line closes the open record, if any, at this line, and opens a new one with an
      empty block. */
  lemma StepTrigger(infos: seq<LineInfo>, i: nat, vinculos: seq<Vinculo>, atual: Option<Vinculo>, bloco: seq<string>)
    requires i < |infos| && TriggerFlags(infos)[i] && infos[i].header.remuneracoes == []
    requires LoopState(infos, i, vinculos, atual, bloco)
    ensures var ts := TriggerIdx(infos, i);
      var closed := if ts == [] then vinculos else vinculos + [Record(infos, ts[|ts| - 1], i)];
      LoopState(infos, i + 1, closed, Some(infos[i].header), [])
  {
    var ts := TriggerIdx(infos, i);
    TriggerIdxNext(infos, i);
    assert (ts + [i])[..|ts|] == ts;
    assert Open(infos, i, i + 1) == infos[i].header;
  }

  /** Any other line met while a record is open joins its block and adds its entry, if it has one. */
  lemma StepBlock(infos: seq<LineInfo>, i: nat, vinculos: seq<Vinculo>, v: Vinculo, bloco: seq<string>)
    requires i < |infos| && NonBlankFlags(infos)[i] && !TriggerFlags(infos)[i]
    requires LoopState(infos, i, vinculos, Some(v), bloco)
    ensures LoopState(infos, i + 1, vinculos,
      Some(v.(remuneracoes := v.remuneracoes + (if EntryFlags(infos)[i] then [infos[i].entry.value] else []))),
      bloco + [infos[i].ln])
  {
    var ts := TriggerIdx(infos, i);
    assert TriggerIdx(infos, i + 1) == ts by {
      TriggerIdxNext(infos, i);
      assert ts + [] == ts;
    }
    var t := ts[|ts| - 1];
    BlockNext(infos, t, i);
    EntriesNext(infos, t, i);
  }

  /** Before the first trigger, any other line is ignored. */
  lemma StepIgnored(infos: seq<LineInfo>, i: nat, vinculos: seq<Vinculo>, bloco: seq<string>)
    requires i < |infos| && !TriggerFlags(infos)[i]
    requires LoopState(infos, i, vinculos, None, bloco)
    ensures LoopState(infos, i + 1, vinculos, None, bloco)
  {
    TriggerIdxNext(infos, i);
  }

  /** At the end of the text the open record, if any, is closed: the loop's state then gives
      the parse result's records. */
  lemma Finish(infos: seq<LineInfo>, vinculos: seq<Vinculo>, atual: Option<Vinculo>, bloco: seq<string>)
    requires LoopState(infos, |infos|, vinculos, atual, bloco)
    ensures var ts := TriggerIdx(infos, |infos|);
      (if ts == [] then vinculos else vinculos + [Record(infos, ts[|ts| - 1], |infos|)]) == Records(infos, ts, |infos|)
  {
  }

  /** A line the loop skips is, in the table, blank and no trigger. */
  lemma SkippedLine(linhas: seq<string>, i: nat)
    requires i < |linhas| && Strip(RStrip(linhas[i])) == []
    ensures var infos := Infos(linhas); !NonBlankFlags(infos)[i] && !TriggerFlags(infos)[i] && !EntryFlags(infos)[i]
  {
    BlankIff(linhas[i]);
    Flags(Infos(linhas), i);
  }

  /** A trigger line is one in the table, and the record it opens is the one the loop builds
      from its columns. */
  lemma TriggerLine(linhas: seq<string>, i: nat, cols: seq<string>)
    requires i < |linhas| && IsTrigger(linhas[i]) && cols == SplitCols(RStrip(linhas[i]))
    ensures var infos := Infos(linhas);
      && TriggerFlags(infos)[i]
      && infos[i].header == Vinculo("EMPREGADO", Nth(Texts(Date, cols), 0), Nth(Texts(Date, cols), 1), None, None, Indicadores(cols), [])
  {
    TriggerFlagOf(linhas, i);
    assert Infos(linhas)[i] == Info(linhas[i]);
  }

  /** Any other non-blank line is, in the table, non-blank and no trigger, with the entry that
      `RE_REMUN.search` gives. */
  lemma OtherLine(linhas: seq<string>, i: nat)
    requires i < |linhas| && !IsBlank(linhas[i]) && !IsTrigger(linhas[i])
    ensures var infos := Infos(linhas);
      && NonBlankFlags(infos)[i] && !TriggerFlags(infos)[i]
      && infos[i].ln == RStrip(linhas[i])
      && infos[i].entry == RemunOf(RStrip(linhas[i]))
      && EntryFlags(infos)[i] == RemunOf(RStrip(linhas[i])).Some?
  {
    TriggerFlagOf(linhas, i);
    NonBlankFlagOf(linhas, i);
    EntryFlagOf(linhas, i);
    assert Infos(linhas)[i] == Info(linhas[i]);
  }

  /** Every record the loop holds open is an employee record. */
  lemma OpenIsEmpregado(linhas: seq<string>, i: nat, vinculos: seq<Vinculo>, v: Vinculo, bloco: seq<string>)
    requires i <= |linhas| && LoopState(Infos(linhas), i, vinculos, Some(v), bloco)
    ensures v.tipoVinculo == "EMPREGADO"
  {
    var infos := Infos(linhas);
    var ts := TriggerIdx(infos, i);
    var t := ts[|ts| - 1];
    assert v.tipoVinculo == infos[t].header.tipoVinculo;
    assert infos[t].header == Opened(linhas[t]) by {
      assert infos[t] == Info(linhas[t]);
    }
  }

  /** Closing the open record, if any (at the next trigger line and after the last line): its last month/year is taken
      from the block buffer and it joins the closed records. */
  method CloseRecord(vinculos: seq<Vinculo>, atual: Option<Vinculo>, bloco: seq<string>) returns (closed: seq<Vinculo>)
    ensures atual.None? ==> closed == vinculos
    ensures atual.Some? ==> closed == vinculos + [atual.value.(ultimaRemuneracao := Last(Texts(MonthYear, bloco)))]
  {
    closed := vinculos;
    if atual.Some? {
      var ultima := ExtractUltimaRemunFromBlock(bloco);
      closed := closed + [atual.value.(ultimaRemuneracao := ultima)];
    }
  }

  /** A trigger line: the open record, if any, is closed, and a new one is
      opened with the dates and indicators of the line's columns and an empty block. */
  method ReadTrigger(linhas: seq<string>, i: nat, vinculos: seq<Vinculo>, atual: Option<Vinculo>, bloco: seq<string>, cols: seq<string>)
    returns (vinculos': seq<Vinculo>, atual': Option<Vinculo>, bloco': seq<string>)
    requires i < |linhas| && LoopState(Infos(linhas), i, vinculos, atual, bloco)
    requires IsTrigger(linhas[i]) && cols == SplitCols(RStrip(linhas[i]))
    ensures LoopState(Infos(linhas), i + 1, vinculos', atual', bloco')
  {
    TriggerLine(linhas, i, cols);
    InfosMeses(linhas);
    ClosedRecord(Infos(linhas), i, vinculos, atual, bloco);
    StepTrigger(Infos(linhas), i, vinculos, atual, bloco);
    vinculos' := CloseRecord(vinculos, atual, bloco);
    var dataInicio, dataFim := ExtractDatasFromCols(cols);
    var indicadores := ExtractIndicadores(cols);
    atual' := Some(Vinculo("EMPREGADO", dataInicio, dataFim, None, None, indicadores, []));
    bloco' := [];
  }

  /** Any other line, already right-stripped to `ln`: while an employee record
      is open, it joins the block and, when the remuneration pattern matches in it, adds an
      entry; before any record it is ignored. */
  method ReadOther(ghost infos: seq<LineInfo>, i: nat, ln: string, vinculos: seq<Vinculo>, atual: Option<Vinculo>, bloco: seq<string>)
    returns (atual': Option<Vinculo>, bloco': seq<string>)
    requires i < |infos| && LoopState(infos, i, vinculos, atual, bloco)
    requires NonBlankFlags(infos)[i] && !TriggerFlags(infos)[i]
    requires infos[i].ln == ln && infos[i].entry == RemunOf(ln)
    requires atual.Some? ==> atual.value.tipoVinculo == "EMPREGADO"
    ensures LoopState(infos, i + 1, vinculos, atual', bloco')
  {
    atual', bloco' := atual, bloco;
    if atual.Some? && atual.value.tipoVinculo == "EMPREGADO" {
      var v := atual.value;
      Flags(infos, i);
      bloco' := bloco + [ln];
      var mrem := Search(Remuneration, ln, 0);
      if mrem.Some? {
        var g := MatchAt(Remuneration, ln, mrem.value).value;
        var valor := ToFloatPtBr(g.group2);
        assert RemunOf(ln) == Some(Remuneracao(g.group1, valor));
        v := v.(remuneracoes := v.remuneracoes + [Remuneracao(g.group1, valor)]);
      } else {
        assert RemunOf(ln) == None;
        assert v.remuneracoes + [] == v.remuneracoes;
      }
      atual' := Some(v);
      StepBlock(infos, i, vinculos, atual.value, bloco);
    } else {
      StepIgnored(infos, i, vinculos, bloco);
    }
  }

  /** One pass of the line loop of `parse_cnis` over line `i`: skip it when it
      is blank, treat it as a trigger when a column names "Empregado", otherwise as a block line. */
  method ReadLine(linhas: seq<string>, i: nat, vinculos: seq<Vinculo>, atual: Option<Vinculo>, bloco: seq<string>)
    returns (vinculos': seq<Vinculo>, atual': Option<Vinculo>, bloco': seq<string>)
    requires i < |linhas| && LoopState(Infos(linhas), i, vinculos, atual, bloco)
    ensures LoopState(Infos(linhas), i + 1, vinculos', atual', bloco')
  {
    var ln := RStrip(linhas[i]);
    if Strip(ln) == [] {
      SkippedLine(linhas, i);
      StepBlank(Infos(linhas), i, vinculos, atual, bloco);
      return vinculos, atual, bloco;
    }
    var cols := SplitCols(ln);
    var hasEmpregado := FindEmpregadoCol(cols);
    BlankIff(linhas[i]);
    if cols != [] && hasEmpregado {
      vinculos', atual', bloco' := ReadTrigger(linhas, i, vinculos, atual, bloco, cols);
    } else {
      OtherLine(linhas, i);
      if atual.Some? {
        OpenIsEmpregado(linhas, i, vinculos, atual.value, bloco);
      }
      vinculos' := vinculos;
      atual', bloco' := ReadOther(Infos(linhas), i, ln, vinculos, atual, bloco);
    }
  }

  /** `parse_cnis(texto)`. */
  method ParseCnis(texto: string) returns (resultado: Resultado)
    ensures resultado == Parse(texto)
  {
    var cpf: Option<string> := None;
    var nit: Option<string> := None;
    var m := Search(Cpf, texto, 0);
    if m.Some? {
      cpf := Some(Strip(MatchAt(Cpf, texto, m.value).value.group1));
    }
    m := Search(Nit, texto, 0);
    if m.Some? {
      nit := Some(Strip(MatchAt(Nit, texto, m.value).value.group1));
    }
    var vinculos := ScanLines(SplitOn(texto, '\n'));
    resultado := Resultado(Identificacao(cpf, nit), vinculos);
  }

  /** The line loop of `parse_cnis` and the closing of the last record: the records are
      exactly `Vinculos(linhas)`, one per trigger line, each built from its own block. */
  method ScanLines(linhas: seq<string>) returns (vinculos: seq<Vinculo>)
    ensures vinculos == Vinculos(linhas)
  {
    vinculos := [];
    var atual: Option<Vinculo> := None;
    var bloco: seq<string> := [];
    for i := 0 to |linhas|
      invariant LoopState(Infos(linhas), i, vinculos, atual, bloco)
    {
      vinculos, atual, bloco := ReadLine(linhas, i, vinculos, atual, bloco);
    }
    InfosMeses(linhas);
    ClosedRecord(Infos(linhas), |linhas|, vinculos, atual, bloco);
    Finish(Infos(linhas), vinculos, atual, bloco);
    vinculos := CloseRecord(vinculos, atual, bloco);
  }
}
