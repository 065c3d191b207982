/**
 * The dashboard script: the seven tables it computes from the mortality
 * sheet, in the order it computes them, and the script itself as a method
 * that updates the data frame in place.
 */
module Dashboard {
  import opened Wrappers
  import opened Text
  import opened Cells
  import opened Frames
  import opened Columns
  import opened Classify
  import opened GroupBy
  import opened Tables

  const DepartmentColumn: string := "NOM_DEPARTAMENTO"
  const LatitudeColumn: string := "LATITUD"
  const LongitudeColumn: string := "LONGITUD"
  const MunicipalityColumn: string := "MUNICIPIO"
  const CauseCodeColumn: string := "COD_MUERTE"
  const CauseNameColumn: string := "MUERTE"
  const AgeCodeColumn: string := "GRUPO_EDAD1"
  const SexColumnName: string := "Sexo_texto"
  const AgeColumnName: string := "Grupo_edad_categoria"
  const CountLabel: string := "Total_muertes"
  const HomicidePrefix: string := "X95"

  /** The labels `rename(columns=...)` gives the cause table. */
  const CauseRenames: map<string, string> := map[CauseNameColumn := "Descripción", CauseCodeColumn := "Código"]

  /**
   * The seven tables behind the map, the charts and the cause table, and the
   * month each row of the month table is named after (the names themselves
   * depend on the locale).
   */
  datatype Report = Report(
    departments: Summary,
    homicides: Summary,
    months: Summary,
    monthNumbers: seq<int>,
    lowest: Summary,
    causes: Summary,
    sexes: Summary,
    ages: Summary)

  /** `df[col_causa].astype(str).str.startswith("X95", na=False)` for one cell. */
  predicate IsHomicideCode(c: Cell)
  {
    StartsWith(Render(c), HomicidePrefix)
  }

  /**
   * Only a text cell can pass the filter: `str()` of an integer or a float
   * starts with a digit, `-` or `i`, and of NaN with `n`.
   */
  lemma NumericCodesAreNotHomicides(c: Cell)
    ensures IsHomicideCode(c) ==> c.Str?
  {
    match c
    case Int(n) =>
      assert Render(c)[0] != 'X';
    case Float(r, _) =>
      assert r[0] != 'X';
    case Missing =>
      assert Render(c)[0] != 'X';
    case Str(_) =>
  }

  /** The rows whose cause cell (position `c`) passes the homicide filter, in row order. */
  function HomicideRows(rows: seq<Row>, width: nat, c: nat): (h: seq<Row>)
    requires c < width && forall i :: 0 <= i < |rows| ==> |rows[i]| == width
    ensures |h| <= |rows|
    ensures forall i :: 0 <= i < |h| ==> |h[i]| == width && IsHomicideCode(h[i][c])
  {
    if rows == [] then []
    else if IsHomicideCode(rows[0][c]) then [rows[0]] + HomicideRows(rows[1..], width, c)
    else HomicideRows(rows[1..], width, c)
  }

  /** The homicide subset keeps every homicide row as often as it occurs and no other row. */
  lemma {:induction false} HomicideRowsExact(rows: seq<Row>, width: nat, c: nat, x: Row)
    requires c < width && forall i :: 0 <= i < |rows| ==> |rows[i]| == width
    requires |x| == width
    ensures multiset(HomicideRows(rows, width, c))[x] == if IsHomicideCode(x[c]) then multiset(rows)[x] else 0
  {
    if rows != [] {
      HomicideRowsExact(rows[1..], width, c, x);
      assert rows == [rows[0]] + rows[1..];
    }
  }

  /** `df_hom = df[...]`: the frame restricted to the homicide rows. */
  function Homicides(f: Frame, c: nat): (h: Frame)
    requires WellFormed(f) && c < |f.columns|
    ensures WellFormed(h) && h.columns == f.columns
  {
    Frame(f.columns, HomicideRows(f.rows, |f.columns|, c))
  }

  /** `df_hom` holds exactly the rows of `df` whose cause text starts with `X95`, each as often as in `df`. */
  lemma HomicidesExact(f: Frame, c: nat)
    requires WellFormed(f) && c < |f.columns|
    ensures forall i :: 0 <= i < |Homicides(f, c).rows| ==> IsHomicideCode(Homicides(f, c).rows[i][c])
    ensures forall x :: |x| == |f.columns| ==>
              multiset(Homicides(f, c).rows)[x] == if IsHomicideCode(x[c]) then multiset(f.rows)[x] else 0
  {
    forall x | |x| == |f.columns|
      ensures multiset(Homicides(f, c).rows)[x] == if IsHomicideCode(x[c]) then multiset(f.rows)[x] else 0
    {
      HomicideRowsExact(f.rows, |f.columns|, c, x);
    }
  }

  /** `groupby(...).size().sort_values(..., ascending=not descending).head(n)`. */
  function Ranked(gs: seq<Group>, n: nat, descending: bool): seq<Group>
  {
    Head(SortByCount(gs, descending), n)
  }

  /** Ranking the counts of some keys gives a ranking of the keys that survive `dropna`. */
  lemma RankedCounts(keys: seq<Key>, n: nat, descending: bool)
    ensures IsRanking(Ranked(CountKeys(keys), n, descending), Dropna(keys), n, descending)
  {
    CountKeysGroups(keys);
    SortHeadIsRanking(CountKeys(keys), Dropna(keys), n, descending);
  }

  const DepartmentKey: seq<Option<string>> := [Some(DepartmentColumn), Some(LatitudeColumn), Some(LongitudeColumn)]

  /** Table 1, `muertes_depto`: rows per department and coordinates. Each of the three columns must exist. */
  function DepartmentTotals(f: Frame): (r: Result<Summary>)
    requires WellFormed(f)
    ensures r.Ok? <==> LookupAll(f, DepartmentKey).Ok?
    ensures r.Err? ==> r.error == LookupAll(f, DepartmentKey).error
    ensures r.Ok? ==> r.value.labels == [DepartmentColumn, LatitudeColumn, LongitudeColumn, "TOTAL_MUERTES"]
  {
    var gs :- GroupCounts(f, DepartmentKey);
    Ok(Summary([DepartmentColumn, LatitudeColumn, LongitudeColumn, "TOTAL_MUERTES"], gs))
  }

  /** The department table counts the rows per (department, latitude, longitude), ascending by key. */
  lemma DepartmentTotalsRows(f: Frame)
    requires WellFormed(f) && DepartmentTotals(f).Ok?
    ensures GroupedRows(DepartmentTotals(f).value.groups, Projected(f, LookupAll(f, DepartmentKey).value))
  {
    GroupCountsRows(f, DepartmentKey);
  }

  /**
   * Table 2, `ciudades_violentas`: among the homicide rows, the five
   * municipalities (of the literal `MUNICIPIO` column) with the most rows.
   */
  function HomicideRanking(f: Frame, cause: string): (r: Result<Summary>)
    requires WellFormed(f)
    ensures r.Ok? <==> cause in f.columns && MunicipalityColumn in f.columns
    ensures r.Err? ==> r.error == KeyError(Some(if cause in f.columns then MunicipalityColumn else cause))
    ensures r.Ok? ==> r.value.labels == [MunicipalityColumn, "Total_homicidios"]
  {
    var c :- Lookup(f, Some(cause));
    var gs :- GroupCounts(Homicides(f, c), [Some(MunicipalityColumn)]);
    Ok(Summary([MunicipalityColumn, "Total_homicidios"], Ranked(gs, 5, true)))
  }

  /**
   * At most five municipalities, by decreasing homicide count, each with its
   * number of homicide rows; a municipality is left out only when five were
   * kept, none with fewer homicides than it.
   */
  lemma HomicideRankingIsRanking(f: Frame, cause: string)
    requires WellFormed(f) && HomicideRanking(f, cause).Ok?
    ensures var h := Homicides(f, IndexOf(f.columns, cause).value);
      IsRanking(HomicideRanking(f, cause).value.groups, Dropna(Projected(h, [IndexOf(f.columns, MunicipalityColumn).value])), 5, true)
  {
    var h := Homicides(f, IndexOf(f.columns, cause).value);
    var idx := LookupAll(h, [Some(MunicipalityColumn)]).value;
    assert idx == [IndexOf(f.columns, MunicipalityColumn).value];
    RankedCounts(Projected(h, idx), 5, true);
  }

  /** Table 3, `df_mes`: rows per month, then `sort_values` on the month. */
  function MonthlyTotals(f: Frame, month: string): (r: Result<Summary>)
    requires WellFormed(f)
    ensures r.Ok? <==> month in f.columns
    ensures r.Err? ==> r.error == KeyError(Some(month))
    ensures r.Ok? ==> r.value.labels == [month, CountLabel]
  {
    var gs :- GroupCounts(f, [Some(month)]);
    Ok(Summary([month, CountLabel], SortByKey(gs)))
  }

  /** The month table is strictly ascending by month and counts the rows of each month. */
  lemma MonthlyTotalsAscending(f: Frame, month: string)
    requires WellFormed(f) && MonthlyTotals(f, month).Ok?
    ensures GroupedRows(MonthlyTotals(f, month).value.groups, Projected(f, [IndexOf(f.columns, month).value]))
  {
    var names := [Some(month)];
    GroupCountsRows(f, names);
    SortByKeyOfSorted(GroupCounts(f, names).value);
    assert LookupAll(f, names).value == [IndexOf(f.columns, month).value];
  }

  /**
   * A text `pd.to_datetime(text, format="%m")` reads as a month: `1` to `9`,
   * `01` to `09`, `10`, `11` or `12`. Every other text raises `ValueError`;
   * `nan` gives `NaT`, whose `strftime` raises `ValueError` too.
   */
  predicate IsMonthText(t: string)
  {
    || (|t| == 1 && '1' <= t[0] <= '9')
    || (|t| == 2 && t[0] == '0' && '1' <= t[1] <= '9')
    || (|t| == 2 && t[0] == '1' && '0' <= t[1] <= '2')
  }

  /** The month `pd.to_datetime(str(m), format="%m")` reads from a key cell `m`, or None where it raises. */
  function MonthOf(c: Cell): Option<int>
  {
    var t := Render(c);
    if IsMonthText(t) then
      assert forall k :: 0 <= k < |t| ==> IsDigit(t[k]);
      Some(DigitsValue(t))
    else None
  }

  /** A month text is made of digits, `int()` converts it, and its value is 1 to 12. */
  lemma MonthTextValue(t: string)
    requires IsMonthText(t)
    ensures forall k :: 0 <= k < |t| ==> IsDigit(t[k])
    ensures 1 <= DigitsValue(t) <= 12 && ParseInt(t) == Some(DigitsValue(t))
  {
    DigitNotSpace(t[0]);
    DigitNotSpace(t[|t| - 1]);
    StripTrimmed(t);
    ParseUnsigned(t);
    if |t| == 1 {
      assert t[..0] == [];
    } else {
      assert t[..1][..0] == [] && t[..1][0] == t[0];
      assert DigitsValue(t[..1]) == DigitValue(t[0]);
    }
  }

  /** `str(n)` of a month number is a month text. */
  lemma MonthDecimal(n: int)
    requires 1 <= n <= 12
    ensures IsMonthText(Decimal(n))
  {
    if n < 10 {
      assert Decimal(n) == [DigitChar(n)];
    } else {
      assert DecimalNat(1) == ['1'];
      assert Decimal(n) == DecimalNat(1) + [DigitChar(n % 10)];
    }
  }

  /** `str(n)` is a month text exactly for the integers 1 to 12. */
  lemma DecimalMonth(n: int)
    ensures IsMonthText(Decimal(n)) <==> 1 <= n <= 12
  {
    if IsMonthText(Decimal(n)) {
      MonthTextValue(Decimal(n));
      ParseDecimal(n);
    }
    if 1 <= n <= 12 {
      MonthDecimal(n);
    }
  }

  /** The text of a float holds a character that is not a digit, or is too long: it is never a month text. */
  lemma FloatNotMonth(r: string)
    requires FloatText(r)
    ensures !IsMonthText(r)
  {
    if r != "inf" && r != "-inf" {
      var k :| 0 <= k < |r| && (r[k] == '.' || r[k] == 'e');
      assert !IsDigit(r[k]);
    }
  }

  /**
   * A month read from a cell is between 1 and 12 and is what `int()` makes of
   * the cell's text; an integer cell is read exactly when it is 1 to 12, as
   * itself; the text of a float or of NaN is never read.
   */
  lemma MonthOfCell(c: Cell)
    ensures MonthOf(c).Some? ==> 1 <= MonthOf(c).value <= 12 && ToInt(Str(Render(c))) == MonthOf(c)
    ensures c.Int? ==> MonthOf(c) == if 1 <= c.i <= 12 then Some(c.i) else None
    ensures c.Float? || c.Missing? ==> MonthOf(c).None?
  {
    var t := Render(c);
    if IsMonthText(t) {
      MonthTextValue(t);
    }
    match c
    case Int(n) =>
      DecimalMonth(n);
      ParseDecimal(n);
    case Float(r, _) =>
      FloatNotMonth(r);
    case _ =>
  }

  /** The key cell of every row of a one-column table (a row without one reads as missing). */
  function KeyCells(gs: seq<Group>): (cells: seq<Cell>)
    ensures |cells| == |gs|
    ensures forall i :: 0 <= i < |gs| && |gs[i].key| > 0 ==> cells[i] == gs[i].key[0]
  {
    seq(|gs|, i requires 0 <= i < |gs| => if |gs[i].key| > 0 then gs[i].key[0] else Missing)
  }

  /**
   * `df_mes[col_mes].apply(lambda m: pd.to_datetime(str(m), format="%m").strftime("%B"))`:
   * the month each row of the month table is named after, row by row; the
   * first cell that is not a month raises `ValueError`.
   */
  function MonthNumbers(cells: seq<Cell>): (r: Result<seq<int>>)
    ensures r.Ok? <==> forall i :: 0 <= i < |cells| ==> MonthOf(cells[i]).Some?
    ensures r.Ok? ==> |r.value| == |cells| && forall i :: 0 <= i < |cells| ==> MonthOf(cells[i]) == Some(r.value[i])
    ensures r.Err? ==> exists i :: 0 <= i < |cells| && MonthOf(cells[i]).None? && r.error == ValueError(Render(cells[i]))
                                   && forall j :: 0 <= j < i ==> MonthOf(cells[j]).Some?
  {
    if cells == [] then Ok([])
    else
      match MonthOf(cells[0])
      case None => Err(ValueError(Render(cells[0])))
      case Some(m) =>
        var rest :- MonthNumbers(cells[1..]);
        Ok([m] + rest)
  }

  /** Every cell is missing or reads as a month. */
  predicate MonthsOrMissing(cells: seq<Cell>)
  {
    forall i :: 0 <= i < |cells| ==> cells[i].Missing? || MonthOf(cells[i]).Some?
  }

  /** Every month cell of the frame is missing or reads as a month. */
  predicate MonthsReadable(f: Frame, month: string)
    requires WellFormed(f)
  {
    match IndexOf(f.columns, month)
    case None => true
    case Some(m) => MonthsOrMissing(ColumnCells(f, m))
  }

  /**
   * Grouping one column: every group's key cell reads as a month exactly when
   * every cell of the column is missing or reads as a month.
   */
  lemma GroupedMonths(gs: seq<Group>, keys: seq<Key>, column: seq<Cell>)
    requires GroupedRows(gs, keys)
    requires |keys| == |column| && forall j :: 0 <= j < |column| ==> keys[j] == [column[j]]
    ensures MonthNumbers(KeyCells(gs)).Ok? <==> MonthsOrMissing(column)
  {
    var cells := KeyCells(gs);
    if MonthsOrMissing(column) {
      forall i | 0 <= i < |gs|
        ensures MonthOf(cells[i]).Some?
      {
        assert gs[i].key in multiset(keys);
        var j :| 0 <= j < |keys| && keys[j] == gs[i].key;
        assert Present(keys[j]) && keys[j][0] == column[j];
      }
    } else {
      var j :| 0 <= j < |column| && !column[j].Missing? && MonthOf(column[j]).None?;
      assert keys[j] in keys && keys[j][0] == column[j];
      assert Present(keys[j]);
      var i :| 0 <= i < |gs| && gs[i].key == keys[j];
      assert MonthOf(cells[i]).None?;
    }
  }

  /**
   * Naming the months of the month table succeeds exactly when every month
   * cell of the sheet is missing (`groupby` dropped it) or reads as a month.
   */
  lemma MonthNamesSucceed(f: Frame, month: string)
    requires WellFormed(f) && MonthlyTotals(f, month).Ok?
    ensures MonthNumbers(KeyCells(MonthlyTotals(f, month).value.groups)).Ok? <==> MonthsReadable(f, month)
  {
    var m := IndexOf(f.columns, month).value;
    var keys := Projected(f, [m]);
    var column := ColumnCells(f, m);
    MonthlyTotalsAscending(f, month);
    forall j | 0 <= j < |column|
      ensures keys[j] == [column[j]]
    {
      assert keys[j] == Project(f.rows[j], [m]);
    }
    GroupedMonths(MonthlyTotals(f, month).value.groups, keys, column);
  }

  /** Table 4, `ciudades_menor_mortalidad`: the ten municipalities with the fewest rows. */
  function LowMortality(f: Frame): (r: Result<Summary>)
    requires WellFormed(f)
    ensures r.Ok? <==> MunicipalityColumn in f.columns
    ensures r.Err? ==> r.error == KeyError(Some(MunicipalityColumn))
    ensures r.Ok? ==> r.value.labels == [MunicipalityColumn, CountLabel]
  {
    var gs :- GroupCounts(f, [Some(MunicipalityColumn)]);
    Ok(Summary([MunicipalityColumn, CountLabel], Ranked(gs, 10, false)))
  }

  /**
   * At most ten municipalities by increasing count; one is left out only when
   * ten were kept, none with more rows than it.
   */
  lemma LowMortalityIsRanking(f: Frame)
    requires WellFormed(f) && LowMortality(f).Ok?
    ensures IsRanking(LowMortality(f).value.groups, Dropna(Projected(f, [IndexOf(f.columns, MunicipalityColumn).value])), 10, false)
  {
    var idx := LookupAll(f, [Some(MunicipalityColumn)]).value;
    assert idx == [IndexOf(f.columns, MunicipalityColumn).value];
    RankedCounts(Projected(f, idx), 10, false);
  }

  const CauseKey: seq<Option<string>> := [Some(CauseCodeColumn), Some(CauseNameColumn)]

  /**
   * Table 5, `causas_principales`: the ten (code, description) pairs with the
   * most rows, the two key columns relabelled `Código` and `Descripción`.
   */
  function TopCauses(f: Frame): (r: Result<Summary>)
    requires WellFormed(f)
    ensures r.Ok? <==> LookupAll(f, CauseKey).Ok?
    ensures r.Err? ==> r.error == LookupAll(f, CauseKey).error
    ensures r.Ok? ==> r.value.labels == ["Código", "Descripción", CountLabel]
  {
    var gs :- GroupCounts(f, CauseKey);
    var table := Rename(Summary([CauseCodeColumn, CauseNameColumn, CountLabel], Ranked(gs, 10, true)), CauseRenames);
    assert table.labels == ["Código", "Descripción", CountLabel];
    Ok(table)
  }

  /** At most ten causes by decreasing count; renaming the columns changed no row. */
  lemma TopCausesIsRanking(f: Frame)
    requires WellFormed(f) && TopCauses(f).Ok?
    ensures IsRanking(TopCauses(f).value.groups, Dropna(Projected(f, LookupAll(f, CauseKey).value)), 10, true)
  {
    RankedCounts(Projected(f, LookupAll(f, CauseKey).value), 10, true);
  }

  /** The (department, sex label) key of every row: the department cell next to the derived `Sexo_texto` cell. */
  function SexPairs(f: Frame, s: nat, d: nat): (keys: seq<Key>)
    requires WellFormed(f) && s < |f.columns| && d < |f.columns|
    ensures |keys| == |f.rows|
    ensures forall i :: 0 <= i < |f.rows| ==> keys[i] == [f.rows[i][d], Str(SexLabel(f.rows[i][s]))]
  {
    seq(|f.rows|, i requires 0 <= i < |f.rows| => [f.rows[i][d], Str(SexLabel(f.rows[i][s]))])
  }

  /**
   * Table 6, `df_sexo_depto`: rows per department and sex label. Reading the
   * sex column raises first, then grouping by the department column.
   */
  function SexByDepartment(f: Frame, sex: Option<string>, department: Option<string>): (r: Result<Summary>)
    requires WellFormed(f)
    ensures r.Ok? <==> Lookup(f, sex).Ok? && Lookup(f, department).Ok?
    ensures r.Err? ==> r.error == KeyError(if Lookup(f, sex).Err? then sex else department)
    ensures r.Ok? ==> r.value.labels == [department.value, SexColumnName, CountLabel]
  {
    var s :- Lookup(f, sex);
    var d :- Lookup(f, department);
    Ok(Summary([department.value, SexColumnName, CountLabel], CountKeys(SexPairs(f, s, d))))
  }

  /**
   * The sex table counts the rows per (department, sex label), ascending by
   * key, dropping only rows without a department; every label is one of the
   * three of `map_sexo` or `Desconocido`.
   */
  lemma SexByDepartmentRows(f: Frame, sex: Option<string>, department: Option<string>)
    requires WellFormed(f) && SexByDepartment(f, sex, department).Ok?
    ensures var pairs := SexPairs(f, Lookup(f, sex).value, Lookup(f, department).value);
      GroupedRows(SexByDepartment(f, sex, department).value.groups, pairs)
    ensures var gs := SexByDepartment(f, sex, department).value.groups;
      forall i :: 0 <= i < |gs| ==> gs[i].key[1].Str? && gs[i].key[1].s in SexLabels.Values + {Unknown}
  {
    var s := Lookup(f, sex).value;
    var pairs := SexPairs(f, s, Lookup(f, department).value);
    var gs := CountKeys(pairs);
    CountKeysGroups(pairs);
    forall i | 0 <= i < |gs|
      ensures gs[i].key[1].Str? && gs[i].key[1].s in SexLabels.Values + {Unknown}
    {
      assert gs[i].key in pairs;
      var j :| 0 <= j < |pairs| && pairs[j] == gs[i].key;
      var name := SexLabel(f.rows[j][s]);
      assert name in SexLabels.Values + {Unknown} by {
        if name == "Masculino" {
          assert SexLabels[1] == name;
        } else if name == "Femenino" {
          assert SexLabels[2] == name;
        } else if name == "Indeterminado" {
          assert SexLabels[3] == name;
        }
      }
    }
  }

  /** The derived `Grupo_edad_categoria` column: the category of every row's age-group cell. */
  function AgeLabels(f: Frame, a: nat): (labels: seq<Cell>)
    requires WellFormed(f) && a < |f.columns|
    ensures |labels| == |f.rows|
    ensures forall i :: 0 <= i < |f.rows| ==> labels[i] == Str(AgeCategory(f.rows[i][a]))
  {
    seq(|f.rows|, i requires 0 <= i < |f.rows| => Str(AgeCategory(f.rows[i][a])))
  }

  /** The grouping key of every row once `Grupo_edad_categoria` is added: its category. */
  function AgeKeys(f: Frame, a: nat): (keys: seq<Key>)
    requires WellFormed(f) && a < |f.columns|
    ensures |keys| == |f.rows|
    ensures forall i :: 0 <= i < |f.rows| ==> keys[i] == [Str(AgeCategory(f.rows[i][a]))]
  {
    var labels := AgeLabels(f, a);
    seq(|f.rows|, i requires 0 <= i < |f.rows| => [labels[i]])
  }

  /** Table 7, `df_hist`: rows per age category, most frequent first. */
  function AgeHistogram(f: Frame): (r: Result<Summary>)
    requires WellFormed(f)
    ensures r.Ok? <==> AgeCodeColumn in f.columns
    ensures r.Err? ==> r.error == KeyError(Some(AgeCodeColumn))
    ensures r.Ok? ==> r.value.labels == [AgeColumnName, CountLabel]
  {
    var a :- Lookup(f, Some(AgeCodeColumn));
    Ok(Summary([AgeColumnName, CountLabel], SortByCount(CountKeys(AgeKeys(f, a)), true)))
  }

  /**
   * The age table has one group per category that occurs, by decreasing
   * count, and drops no row: every row gets a category.
   */
  lemma AgeHistogramOrdered(f: Frame)
    requires WellFormed(f) && AgeHistogram(f).Ok?
    ensures var keys := AgeKeys(f, IndexOf(f.columns, AgeCodeColumn).value);
      var gs := AgeHistogram(f).value.groups;
      && IsCountOrdered(gs, keys, true)
      && (forall k :: k in keys ==> !Omitted(gs, k))
      && Total(gs) == |f.rows|
  {
    var keys := AgeKeys(f, IndexOf(f.columns, AgeCodeColumn).value);
    DropnaAllPresent(keys);
    CountKeysGroups(keys);
    GroupSizeIsGrouping(keys);
    SortedGrouping(CountKeys(keys), keys, true);
  }

  /**
   * The whole script on the normalised frame: the column gate, then the
   * seven tables in order, with the month names right after the month table;
   * the first failing step decides the error.
   */
  function Dashboard(f: Frame): Result<Report>
    requires WellFormed(f)
  {
    var roles :- Validate(f.columns);
    var departments :- DepartmentTotals(f);
    var homicides :- HomicideRanking(f, roles.cause.value);
    var months :- MonthlyTotals(f, roles.month.value);
    var monthNumbers :- MonthNumbers(KeyCells(months.groups));
    var lowest :- LowMortality(f);
    var causes :- TopCauses(f);
    var sexes :- SexByDepartment(f, roles.sex, roles.department);
    var ages :- AgeHistogram(f);
    Ok(Report(departments, homicides, months, monthNumbers, lowest, causes, sexes, ages))
  }

  /** The labels the script reads without detecting them. */
  const FixedColumns: seq<string> :=
    [DepartmentColumn, LatitudeColumn, LongitudeColumn, MunicipalityColumn, CauseCodeColumn, CauseNameColumn, AgeCodeColumn]

  /** The script completes exactly when the gate passes and each of the seven tables can be built. */
  lemma DashboardSteps(f: Frame)
    requires WellFormed(f)
    ensures Validate(f.columns).Err? ==> Dashboard(f) == Err(Validate(f.columns).error)
    ensures Dashboard(f).Ok? <==>
              && Validate(f.columns).Ok?
              && var roles := Validate(f.columns).value;
              && DepartmentTotals(f).Ok?
              && HomicideRanking(f, roles.cause.value).Ok?
              && MonthlyTotals(f, roles.month.value).Ok?
              && MonthNumbers(KeyCells(MonthlyTotals(f, roles.month.value).value.groups)).Ok?
              && LowMortality(f).Ok?
              && TopCauses(f).Ok?
              && SexByDepartment(f, roles.sex, roles.department).Ok?
              && AgeHistogram(f).Ok?
  {
  }

  /** The department table can be built exactly when its three columns exist. */
  lemma DepartmentTotalsSucceeds(f: Frame)
    requires WellFormed(f)
    ensures DepartmentTotals(f).Ok? <==> DepartmentColumn in f.columns && LatitudeColumn in f.columns && LongitudeColumn in f.columns
  {
    if DepartmentColumn in f.columns && LatitudeColumn in f.columns && LongitudeColumn in f.columns {
      assert forall j :: 0 <= j < |DepartmentKey| ==> DepartmentKey[j].Some? && DepartmentKey[j].value in f.columns;
    } else {
      assert !(DepartmentKey[0].value in f.columns && DepartmentKey[1].value in f.columns && DepartmentKey[2].value in f.columns);
    }
  }

  /** The cause table can be built exactly when `COD_MUERTE` and `MUERTE` exist. */
  lemma TopCausesSucceeds(f: Frame)
    requires WellFormed(f)
    ensures TopCauses(f).Ok? <==> CauseCodeColumn in f.columns && CauseNameColumn in f.columns
  {
    if CauseCodeColumn in f.columns && CauseNameColumn in f.columns {
      assert forall j :: 0 <= j < |CauseKey| ==> CauseKey[j].Some? && CauseKey[j].value in f.columns;
    } else {
      assert !(CauseKey[0].value in f.columns && CauseKey[1].value in f.columns);
    }
  }

  /** Every fixed label is a column, spelled out label by label. */
  lemma FixedColumnsPresent(columns: seq<string>)
    ensures (forall k :: 0 <= k < |FixedColumns| ==> FixedColumns[k] in columns) <==>
      && DepartmentColumn in columns && LatitudeColumn in columns && LongitudeColumn in columns
      && MunicipalityColumn in columns && CauseCodeColumn in columns && CauseNameColumn in columns
      && AgeCodeColumn in columns
  {
    if !(forall k :: 0 <= k < |FixedColumns| ==> FixedColumns[k] in columns) {
      var k :| 0 <= k < |FixedColumns| && FixedColumns[k] !in columns;
      assert k == 0 || k == 1 || k == 2 || k == 3 || k == 4 || k == 5 || k == 6;
    } else {
      assert FixedColumns[0] in columns && FixedColumns[1] in columns && FixedColumns[2] in columns;
      assert FixedColumns[3] in columns && FixedColumns[4] in columns && FixedColumns[5] in columns;
      assert FixedColumns[6] in columns;
    }
  }

  /** Every detected role names one of the columns. */
  lemma ResolvedAreColumns(columns: seq<string>)
    ensures var roles := Resolve(columns);
      && (roles.cause.Some? ==> roles.cause.value in columns)
      && (roles.month.Some? ==> roles.month.value in columns)
      && (roles.sex.Some? ==> roles.sex.value in columns)
      && (roles.department.Some? ==> roles.department.value in columns)
  {
    DetectedIsNonEmptyColumn(columns, CauseNeedles);
    DetectedIsNonEmptyColumn(columns, MonthNeedles);
    DetectedIsNonEmptyColumn(columns, SexNeedles);
    DetectedIsNonEmptyColumn(columns, DepartmentNeedles);
  }

  /**
   * Past the gate, the seven tables can all be built exactly when every fixed
   * label is a column and a sex and a department column were detected.
   */
  lemma GatedStepsSucceed(f: Frame, roles: Roles)
    requires WellFormed(f) && Validate(f.columns).Ok? && roles == Validate(f.columns).value
    ensures
      (&& DepartmentTotals(f).Ok?
       && HomicideRanking(f, roles.cause.value).Ok?
       && MonthlyTotals(f, roles.month.value).Ok?
       && LowMortality(f).Ok?
       && TopCauses(f).Ok?
       && SexByDepartment(f, roles.sex, roles.department).Ok?
       && AgeHistogram(f).Ok?)
      <==>
      (&& (forall k :: 0 <= k < |FixedColumns| ==> FixedColumns[k] in f.columns)
       && roles.sex.Some?
       && roles.department.Some?)
  {
    DepartmentTotalsSucceeds(f);
    TopCausesSucceeds(f);
    ResolvedAreColumns(f.columns);
    FixedColumnsPresent(f.columns);
  }

  /** Past the gate the month table is built, and its months are named exactly when every month cell is missing or a month. */
  lemma GatedMonthsNamed(f: Frame, roles: Roles)
    requires WellFormed(f) && Validate(f.columns).Ok? && roles == Validate(f.columns).value
    ensures MonthlyTotals(f, roles.month.value).Ok?
    ensures MonthNumbers(KeyCells(MonthlyTotals(f, roles.month.value).value.groups)).Ok? <==> MonthsReadable(f, roles.month.value)
  {
    DetectedIsNonEmptyColumn(f.columns, MonthNeedles);
    MonthNamesSucceed(f, roles.month.value);
  }

  /**
   * The script completes exactly when the gate passes, every fixed label is a
   * column, every month cell is missing or a month and a sex and a department
   * column were detected; when the gate fails, its error is the one reported.
   */
  lemma DashboardOutcome(f: Frame)
    requires WellFormed(f)
    ensures Validate(f.columns).Err? ==> Dashboard(f) == Err(Validate(f.columns).error)
    ensures Dashboard(f).Ok? <==>
              && Validate(f.columns).Ok?
              && (forall k :: 0 <= k < |FixedColumns| ==> FixedColumns[k] in f.columns)
              && MonthsReadable(f, Resolve(f.columns).month.value)
              && Resolve(f.columns).sex.Some?
              && Resolve(f.columns).department.Some?
  {
    DashboardSteps(f);
    if Validate(f.columns).Ok? {
      GatedStepsSucceed(f, Validate(f.columns).value);
      GatedMonthsNamed(f, Validate(f.columns).value);
    }
  }

  /**
   * The gate accepts a municipality column labelled `CIUDAD`, but the homicide
   * table groups by the literal `MUNICIPIO`: without such a column the script
   * passes the gate and then stops with `KeyError('MUNICIPIO')`.
   */
  lemma MunicipalityLabelRequired(f: Frame)
    requires WellFormed(f) && Validate(f.columns).Ok?
    requires DepartmentColumn in f.columns && LatitudeColumn in f.columns && LongitudeColumn in f.columns
    requires MunicipalityColumn !in f.columns
    ensures Dashboard(f) == Err(KeyError(Some(MunicipalityColumn)))
  {
    DepartmentTotalsSucceeds(f);
    DetectedIsNonEmptyColumn(f.columns, CauseNeedles);
  }

  /** A detected department label is at least as long as `NOM_DEPARTAMENTO`, so it is not `Sexo_texto`. */
  lemma DepartmentIsNotDerived(columns: seq<string>)
    ensures Detect(columns, DepartmentNeedles).Some? ==> Detect(columns, DepartmentNeedles).value != SexColumnName
  {
    if Detect(columns, DepartmentNeedles).Some? {
      var c := Detect(columns, DepartmentNeedles).value;
      var k :| 0 <= k < |columns| && columns[k] == c && MatchesAny(columns[k], DepartmentNeedles);
      assert Contains(c, DepartmentNeedles[0]);
    }
  }

  /**
   * After `df["Sexo_texto"] = ...`, grouping by the department and the new
   * column sees, row by row, the department cell and the sex label.
   */
  lemma SexColumnKeys(f: Frame, s: nat, department: string)
    requires WellFormed(f) && s < |f.columns| && department in f.columns && department != SexColumnName
    ensures var g := WithColumn(f, SexColumnName, SexColumn(ColumnCells(f, s)));
      && LookupAll(g, [Some(department), Some(SexColumnName)]).Ok?
      && Projected(g, LookupAll(g, [Some(department), Some(SexColumnName)]).value)
         == SexPairs(f, s, IndexOf(f.columns, department).value)
  {
    var g := WithColumn(f, SexColumnName, SexColumn(ColumnCells(f, s)));
    WithColumnKeepsIndex(f, SexColumnName, SexColumn(ColumnCells(f, s)), department);
    var d := IndexOf(f.columns, department).value;
    var idx := LookupAll(g, [Some(department), Some(SexColumnName)]).value;
    assert idx[0] == d;
    var keys := Projected(g, idx);
    var pairs := SexPairs(f, s, d);
    forall i | 0 <= i < |f.rows|
      ensures keys[i] == pairs[i]
    {
      assert keys[i][0] == g.rows[i][d] == f.rows[i][d];
      assert keys[i][1] == g.rows[i][idx[1]];
    }
  }

  /** Adding `Sexo_texto` leaves the column `GRUPO_EDAD1` where it was, with its cells. */
  lemma AgeColumnKept(f: Frame, values: seq<Cell>)
    requires WellFormed(f) && |values| == |f.rows|
    ensures var g := WithColumn(f, SexColumnName, values);
      && (Lookup(g, Some(AgeCodeColumn)).Ok? <==> Lookup(f, Some(AgeCodeColumn)).Ok?)
      && (Lookup(f, Some(AgeCodeColumn)).Ok? ==>
            Lookup(g, Some(AgeCodeColumn)).value == Lookup(f, Some(AgeCodeColumn)).value
            && ColumnCells(g, Lookup(g, Some(AgeCodeColumn)).value) == ColumnCells(f, Lookup(f, Some(AgeCodeColumn)).value))
  {
    var g := WithColumn(f, SexColumnName, values);
    if AgeCodeColumn in f.columns {
      WithColumnKeepsIndex(f, SexColumnName, values, AgeCodeColumn);
    }
  }

  /** After `df["Grupo_edad_categoria"] = labels`, grouping by it sees the labels. */
  lemma AgeColumnKeys(f: Frame, labels: seq<Cell>, a: nat)
    requires WellFormed(f) && a < |f.columns| && |labels| == |f.rows|
    requires forall i :: 0 <= i < |f.rows| ==> labels[i] == Str(AgeCategory(f.rows[i][a]))
    ensures var h := WithColumn(f, AgeColumnName, labels);
      && LookupAll(h, [Some(AgeColumnName)]).Ok?
      && Projected(h, LookupAll(h, [Some(AgeColumnName)]).value) == AgeKeys(f, a)
  {
    var h := WithColumn(f, AgeColumnName, labels);
    var idx := LookupAll(h, [Some(AgeColumnName)]).value;
    var keys := Projected(h, idx);
    forall i | 0 <= i < |f.rows|
      ensures keys[i] == AgeKeys(f, a)[i]
    {
      assert keys[i][0] == h.rows[i][idx[0]];
    }
  }

  /** Adding `Sexo_texto` does not change the age table. */
  lemma AgeHistogramKept(f: Frame, values: seq<Cell>)
    requires WellFormed(f) && |values| == |f.rows|
    ensures AgeHistogram(WithColumn(f, SexColumnName, values)) == AgeHistogram(f)
  {
    var g := WithColumn(f, SexColumnName, values);
    AgeColumnKept(f, values);
    if AgeCodeColumn in f.columns {
      var a := Lookup(f, Some(AgeCodeColumn)).value;
      assert ColumnCells(g, a) == ColumnCells(f, a);
      assert AgeKeys(g, a) == AgeKeys(f, a) by {
        forall i | 0 <= i < |f.rows|
          ensures AgeKeys(g, a)[i] == AgeKeys(f, a)[i]
        {
          assert ColumnCells(g, a)[i] == ColumnCells(f, a)[i];
        }
      }
    }
  }

  /**
   * `df["Sexo_texto"] = df[col_sexo].map(map_sexo).fillna("Desconocido")`,
   * then the sex table grouped by `col_depto` and the new column.
   */
  method SexStep(df: DataFrame, roles: Roles) returns (r: Result<Summary>)
    requires df.Valid() && roles == Resolve(df.columns)
    modifies df
    ensures df.Valid()
    ensures r == SexByDepartment(old(df.Value()), roles.sex, roles.department)
    ensures Lookup(old(df.Value()), roles.sex).Ok? ==>
      df.Value() == WithColumn(old(df.Value()), SexColumnName, SexColumn(ColumnCells(old(df.Value()), Lookup(old(df.Value()), roles.sex).value)))
    ensures Lookup(old(df.Value()), roles.sex).Err? ==> df.Value() == old(df.Value())
  {
    var f := df.Value();
    var sexColumn := Lookup(f, roles.sex);
    if sexColumn.Err? {
      return Err(sexColumn.error);
    }
    df.SetColumn(SexColumnName, SexColumn(ColumnCells(f, sexColumn.value)));
    DetectedIsNonEmptyColumn(f.columns, DepartmentNeedles);
    DepartmentIsNotDerived(f.columns);
    var bySex := GroupCounts(df.Value(), [roles.department, Some(SexColumnName)]);
    if bySex.Err? {
      return Err(bySex.error);
    }
    SexColumnKeys(f, sexColumn.value, roles.department.value);
    r := Ok(Summary([roles.department.value, SexColumnName, CountLabel], bySex.value));
  }

  /**
   * `df["Grupo_edad_categoria"] = df["GRUPO_EDAD1"].apply(clasificar_grupo)`,
   * then the age table, most frequent category first.
   */
  method AgeStep(df: DataFrame) returns (r: Result<Summary>)
    requires df.Valid()
    modifies df
    ensures df.Valid()
    ensures r == AgeHistogram(old(df.Value()))
    ensures Lookup(old(df.Value()), Some(AgeCodeColumn)).Ok? ==>
      df.Value() == WithColumn(old(df.Value()), AgeColumnName, AgeLabels(old(df.Value()), Lookup(old(df.Value()), Some(AgeCodeColumn)).value))
    ensures Lookup(old(df.Value()), Some(AgeCodeColumn)).Err? ==> df.Value() == old(df.Value())
  {
    var g := df.Value();
    var ageColumn := Lookup(g, Some(AgeCodeColumn));
    if ageColumn.Err? {
      return Err(ageColumn.error);
    }
    var categories := ClassifyColumn(ColumnCells(g, ageColumn.value));
    assert categories == AgeLabels(g, ageColumn.value);
    df.SetColumn(AgeColumnName, categories);
    AgeColumnKeys(g, categories, ageColumn.value);
    var byAge := GroupCounts(df.Value(), [Some(AgeColumnName)]);
    r := Ok(Summary([AgeColumnName, CountLabel], SortByCount(byAge.value, true)));
  }

  /**
   * The script: load the sheet into a data frame, normalise its labels,
   * detect the columns, stop at the gate, then build the seven tables,
   * adding `Sexo_texto` and `Grupo_edad_categoria` to the frame as it goes.
   */
  method RunDashboard(columns: seq<string>, rows: seq<Row>) returns (r: Result<Report>)
    requires WellFormed(Frame(columns, rows))
    ensures r == Dashboard(Frame(NormalizeAll(columns), rows))
  {
    var df := new DataFrame(columns, rows);
    df.NormalizeColumns();
    var f := df.Value();
    var checked := Validate(df.columns);
    if checked.Err? {
      return Err(checked.error);
    }
    var roles := checked.value;
    var departments := DepartmentTotals(f);
    if departments.Err? {
      return Err(departments.error);
    }
    var homicides := HomicideRanking(f, roles.cause.value);
    if homicides.Err? {
      return Err(homicides.error);
    }
    // The month column was detected, so it exists; `MUNICIPIO` exists since
    // the homicide ranking found it: these two tables cannot fail.
    var months := MonthlyTotals(f, roles.month.value);
    var monthNumbers := MonthNumbers(KeyCells(months.value.groups));
    if monthNumbers.Err? {
      return Err(monthNumbers.error);
    }
    var lowest := LowMortality(f);
    var causes := TopCauses(f);
    if causes.Err? {
      return Err(causes.error);
    }
    var sexes := SexStep(df, roles);
    if sexes.Err? {
      return Err(sexes.error);
    }
    AgeHistogramKept(f, SexColumn(ColumnCells(f, Lookup(f, roles.sex).value)));
    var ages := AgeStep(df);
    if ages.Err? {
      return Err(ages.error);
    }
    return Ok(Report(departments.value, homicides.value, months.value, monthNumbers.value, lowest.value, causes.value, sexes.value, ages.value));
  }
}
