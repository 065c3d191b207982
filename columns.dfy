/**
 * Column detection: every semantic role is bound to the first column whose
 * (normalised) label contains one of the role's substrings, and the script
 * stops unless the cause, municipality, month and year roles are bound.
 */
module Columns {
  import opened Wrappers
  import opened Text
  import opened Frames

  const CauseNeedles: seq<string> := ["COD_MUERTE"]
  const DescriptionNeedles: seq<string> := ["MUERTE"]
  const MunicipalityNeedles: seq<string> := ["MUNICIPIO", "CIUDAD"]
  const MonthNeedles: seq<string> := ["MES"]
  const YearNeedles: seq<string> := ["ANO", "AÑO"]
  const SexNeedles: seq<string> := ["SEXO"]
  const DepartmentNeedles: seq<string> := ["NOM_DEPARTAMENTO"]

  /** The label contains at least one of the substrings. */
  predicate MatchesAny(name: string, needles: seq<string>)
  {
    exists k :: 0 <= k < |needles| && Contains(name, needles[k])
  }

  /** Position of the first label from `start` on that matches. */
  function FirstMatchFrom(columns: seq<string>, needles: seq<string>, start: nat): (r: Option<nat>)
    requires start <= |columns|
    decreases |columns| - start
    ensures r.None? <==> forall k :: start <= k < |columns| ==> !MatchesAny(columns[k], needles)
    ensures r.Some? ==> start <= r.value < |columns| && MatchesAny(columns[r.value], needles)
    ensures r.Some? ==> forall k :: start <= k < r.value ==> !MatchesAny(columns[k], needles)
  {
    if start == |columns| then None
    else if MatchesAny(columns[start], needles) then Some(start)
    else FirstMatchFrom(columns, needles, start + 1)
  }

  /**
   * `next((c for c in df.columns if needle in c or ...), None)`: the first
   * matching label in column order, or None when no label matches.
   */
  function Detect(columns: seq<string>, needles: seq<string>): (r: Option<string>)
    ensures r.None? <==> forall k :: 0 <= k < |columns| ==> !MatchesAny(columns[k], needles)
    ensures r.Some? ==> exists k :: 0 <= k < |columns| && columns[k] == r.value && MatchesAny(columns[k], needles)
                                && forall j :: 0 <= j < k ==> !MatchesAny(columns[j], needles)
  {
    match FirstMatchFrom(columns, needles, 0)
    case None => None
    case Some(k) => Some(columns[k])
  }

  /** The detected column of each role (`col_causa`, `col_des_causa`, ...). */
  datatype Roles = Roles(
    cause: Option<string>,
    causeDescription: Option<string>,
    municipality: Option<string>,
    month: Option<string>,
    year: Option<string>,
    sex: Option<string>,
    department: Option<string>)

  function Resolve(columns: seq<string>): Roles
  {
    Roles(
      Detect(columns, CauseNeedles),
      Detect(columns, DescriptionNeedles),
      Detect(columns, MunicipalityNeedles),
      Detect(columns, MonthNeedles),
      Detect(columns, YearNeedles),
      Detect(columns, SexNeedles),
      Detect(columns, DepartmentNeedles))
  }

  /** Python truthiness of a detected column: present and not the empty label. */
  predicate Truthy(o: Option<string>)
  {
    o.Some? && o.value != ""
  }

  /** A detected label is a column and is never empty, since no substring is. */
  lemma DetectedIsNonEmptyColumn(columns: seq<string>, needles: seq<string>)
    requires forall k :: 0 <= k < |needles| ==> needles[k] != ""
    ensures Detect(columns, needles).Some? ==> Detect(columns, needles).value in columns && Truthy(Detect(columns, needles))
  {
    if Detect(columns, needles).Some? {
      var c := Detect(columns, needles).value;
      var k :| 0 <= k < |columns| && columns[k] == c && MatchesAny(columns[k], needles);
      var n :| 0 <= n < |needles| && Contains(c, needles[n]);
      var i :| 0 <= i <= |c| - |needles[n]| && OccursAt(c, needles[n], i);
    }
  }

  /**
   * `if not all([col_causa, col_muni, col_mes, col_ano]): raise ValueError(...)`:
   * fails exactly when one of the four required roles is undetected, and the
   * error reports what was detected for each.
   */
  function Validate(columns: seq<string>): (r: Result<Roles>)
    ensures var roles := Resolve(columns);
      r.Err? <==> roles.cause.None? || roles.municipality.None? || roles.month.None? || roles.year.None?
    ensures var roles := Resolve(columns);
      r.Err? ==> r.error == MissingColumns(roles.cause, roles.municipality, roles.month, roles.year)
    ensures r.Ok? ==> r.value == Resolve(columns)
  {
    var roles := Resolve(columns);
    DetectedIsNonEmptyColumn(columns, CauseNeedles);
    DetectedIsNonEmptyColumn(columns, MunicipalityNeedles);
    DetectedIsNonEmptyColumn(columns, MonthNeedles);
    DetectedIsNonEmptyColumn(columns, YearNeedles);
    if !(Truthy(roles.cause) && Truthy(roles.municipality) && Truthy(roles.month) && Truthy(roles.year)) then
      Err(MissingColumns(roles.cause, roles.municipality, roles.month, roles.year))
    else
      Ok(roles)
  }

  /**
   * The description rule also matches `COD_MUERTE`: whenever a cause column is
   * detected, a description column is detected too, at the same position or
   * earlier. With `COD_MUERTE` before `MUERTE` both roles name `COD_MUERTE`.
   */
  lemma {:induction false} DescriptionNotAfterCause(columns: seq<string>)
    ensures var cause := FirstMatchFrom(columns, CauseNeedles, 0);
            var description := FirstMatchFrom(columns, DescriptionNeedles, 0);
            cause.Some? ==> description.Some? && description.value <= cause.value
  {
    var cause := FirstMatchFrom(columns, CauseNeedles, 0);
    if cause.Some? {
      var c := columns[cause.value];
      assert MatchesAny(c, CauseNeedles);
      assert Contains(c, "COD_MUERTE");
      assert OccursAt("COD_MUERTE", "MUERTE", 4);
      ContainsTransitive(c, "COD_MUERTE", "MUERTE");
      assert Contains(c, DescriptionNeedles[0]);
    }
  }

  /** A first label containing `COD_MUERTE` is detected as the cause description too. */
  lemma CodeShadowsDescription(columns: seq<string>)
    requires columns != [] && Contains(columns[0], "COD_MUERTE")
    ensures Resolve(columns).cause == Some(columns[0])
    ensures Resolve(columns).causeDescription == Some(columns[0])
  {
    assert Contains(columns[0], CauseNeedles[0]);
    DescriptionNotAfterCause(columns);
  }

  /** A column labelled exactly like a substring of a role is detected for it unless an earlier column matches. */
  lemma ExactLabelDetected(columns: seq<string>, needles: seq<string>, n: nat)
    requires n < |needles| && needles[n] in columns
    ensures Detect(columns, needles).Some?
  {
    var k :| 0 <= k < |columns| && columns[k] == needles[n];
    assert OccursAt(columns[k], needles[n], 0);
    assert MatchesAny(columns[k], needles);
  }
}
