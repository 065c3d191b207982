/**
 * The two per-record classifiers: the age-group category derived from the
 * DANE age-group code (`clasificar_grupo` over `map_grupo`) and the sex label
 * (`map_sexo` followed by `fillna`).
 */
module Classify {
  import opened Wrappers
  import opened Cells

  /** An inclusive range of age-group codes and its category. */
  datatype AgeRange = AgeRange(lo: int, hi: int, name: string)

  /** `map_grupo`, in its insertion order. */
  const AgeGroups: seq<AgeRange> := [
    AgeRange(0, 4, "Mortalidad neonatal"),
    AgeRange(5, 6, "Mortalidad infantil"),
    AgeRange(7, 8, "Primera infancia"),
    AgeRange(9, 10, "Niñez"),
    AgeRange(11, 11, "Adolescencia"),
    AgeRange(12, 13, "Juventud"),
    AgeRange(14, 16, "Adultez temprana"),
    AgeRange(17, 19, "Adultez intermedia"),
    AgeRange(20, 24, "Vejez"),
    AgeRange(25, 28, "Longevidad / Centenarios"),
    AgeRange(29, 29, "Edad desconocida")
  ]

  const NotSpecified: string := "No especificado"

  predicate InRange(r: AgeRange, n: int)
  {
    r.lo <= n <= r.hi
  }

  /** Position of the first range from `start` on that contains `n`. */
  function FirstRangeFrom(ranges: seq<AgeRange>, n: int, start: nat): (r: Option<nat>)
    requires start <= |ranges|
    decreases |ranges| - start
    ensures r.None? <==> forall k :: start <= k < |ranges| ==> !InRange(ranges[k], n)
    ensures r.Some? ==> start <= r.value < |ranges| && InRange(ranges[r.value], n)
    ensures r.Some? ==> forall k :: start <= k < r.value ==> !InRange(ranges[k], n)
  {
    if start == |ranges| then None
    else if InRange(ranges[start], n) then Some(start)
    else FirstRangeFrom(ranges, n, start + 1)
  }

  /** The category `clasificar_grupo` gives a cell: the specification of `ClassifyGroup`. */
  function AgeCategory(c: Cell): string
  {
    match ToInt(c)
    case None => NotSpecified
    case Some(n) =>
      match FirstRangeFrom(AgeGroups, n, 0)
      case None => NotSpecified
      case Some(k) => AgeGroups[k].name
  }

  /**
   * `clasificar_grupo(codigo)`: convert to an integer (a failing conversion
   * gives "No especificado"), then return the label of the first range that
   * contains the code, or "No especificado" after the last range.
   */
  method ClassifyGroup(c: Cell) returns (category: string)
    ensures category == AgeCategory(c)
  {
    var converted := ToInt(c);
    if converted.None? {
      return NotSpecified;
    }
    var code := converted.value;
    var i := 0;
    while i < |AgeGroups|
      invariant 0 <= i <= |AgeGroups|
      invariant FirstRangeFrom(AgeGroups, code, 0) == FirstRangeFrom(AgeGroups, code, i)
    {
      var range := AgeGroups[i];
      if range.lo <= code <= range.hi {
        return range.name;
      }
      i := i + 1;
    }
    return NotSpecified;
  }

  /** `df["GRUPO_EDAD1"].apply(clasificar_grupo)`, one record at a time. */
  method ClassifyColumn(cells: seq<Cell>) returns (labels: seq<Cell>)
    ensures |labels| == |cells|
    ensures forall i :: 0 <= i < |cells| ==> labels[i] == Str(AgeCategory(cells[i]))
  {
    labels := [];
    var i := 0;
    while i < |cells|
      invariant 0 <= i <= |cells|
      invariant |labels| == i
      invariant forall k :: 0 <= k < i ==> labels[k] == Str(AgeCategory(cells[k]))
    {
      var category := ClassifyGroup(cells[i]);
      labels := labels + [Str(category)];
      i := i + 1;
    }
  }

  /** Each range is non-empty and the next one starts right after it. */
  predicate Contiguous(ranges: seq<AgeRange>)
  {
    && (forall k :: 0 <= k < |ranges| ==> ranges[k].lo <= ranges[k].hi)
    && (forall k :: 0 <= k < |ranges| - 1 ==> ranges[k].hi + 1 == ranges[k + 1].lo)
  }

  /** In a contiguous table, a range ends before any later one starts. */
  lemma {:induction false} ContiguousOrdered(ranges: seq<AgeRange>, i: nat, j: nat)
    requires Contiguous(ranges) && i < j < |ranges|
    ensures ranges[i].hi < ranges[j].lo
    decreases j - i
  {
    if j > i + 1 {
      ContiguousOrdered(ranges, i + 1, j);
    }
  }

  /** A contiguous table covers exactly the codes from its first start to its last end. */
  lemma {:induction false} ContiguousCovers(ranges: seq<AgeRange>, n: int)
    requires Contiguous(ranges) && ranges != []
    ensures (exists k :: 0 <= k < |ranges| && InRange(ranges[k], n)) <==> ranges[0].lo <= n <= ranges[|ranges| - 1].hi
    decreases |ranges|
  {
    var last := |ranges| - 1;
    if exists k :: 0 <= k < |ranges| && InRange(ranges[k], n) {
      var k :| 0 <= k < |ranges| && InRange(ranges[k], n);
      if k > 0 {
        ContiguousOrdered(ranges, 0, k);
      }
      if k < last {
        ContiguousOrdered(ranges, k, last);
      }
    }
    if ranges[0].lo <= n <= ranges[last].hi && !InRange(ranges[0], n) {
      var tail := ranges[1..];
      assert Contiguous(tail);
      assert tail[0].lo <= n <= tail[|tail| - 1].hi;
      ContiguousCovers(tail, n);
      var k :| 0 <= k < |tail| && InRange(tail[k], n);
      assert InRange(ranges[k + 1], n);
    }
  }

  lemma AgeGroupsContiguous()
    ensures Contiguous(AgeGroups)
    ensures AgeGroups[0].lo == 0 && AgeGroups[|AgeGroups| - 1].hi == 29
  {
  }

  /** The age ranges are pairwise disjoint. */
  lemma AgeGroupsDisjoint(i: nat, j: nat, n: int)
    requires i < |AgeGroups| && j < |AgeGroups| && i != j
    ensures !(InRange(AgeGroups[i], n) && InRange(AgeGroups[j], n))
  {
    AgeGroupsContiguous();
    if i < j {
      ContiguousOrdered(AgeGroups, i, j);
    } else {
      ContiguousOrdered(AgeGroups, j, i);
    }
  }

  /** The age ranges together cover exactly the codes 0 to 29. */
  lemma AgeGroupsCover(n: int)
    ensures (exists k :: 0 <= k < |AgeGroups| && InRange(AgeGroups[k], n)) <==> 0 <= n <= 29
  {
    AgeGroupsContiguous();
    ContiguousCovers(AgeGroups, n);
  }

  /** Every integer code 0..29 gets the label of the one range that contains it. */
  lemma AgeCategoryInDomain(n: int)
    requires 0 <= n <= 29
    ensures exists k :: 0 <= k < |AgeGroups| && InRange(AgeGroups[k], n) && AgeCategory(Int(n)) == AgeGroups[k].name
                        && forall j :: 0 <= j < |AgeGroups| && j != k ==> !InRange(AgeGroups[j], n)
  {
    AgeGroupsCover(n);
    var k := FirstRangeFrom(AgeGroups, n, 0).value;
    forall j | 0 <= j < |AgeGroups| && j != k
      ensures !InRange(AgeGroups[j], n)
    {
      AgeGroupsDisjoint(j, k, n);
    }
  }

  /**
   * `clasificar_grupo` never raises and answers "No especificado" exactly for
   * a value `int()` cannot convert or a code outside 0..29.
   */
  lemma NotSpecifiedExactly(c: Cell)
    ensures AgeCategory(c) == NotSpecified <==> ToInt(c).None? || !(0 <= ToInt(c).value <= 29)
  {
    if ToInt(c).Some? {
      CodeCategory(ToInt(c).value);
    }
  }

  /** An integer code gets a range exactly when it is 0..29, and no range is labelled "No especificado". */
  lemma CodeCategory(n: int)
    ensures FirstRangeFrom(AgeGroups, n, 0).Some? <==> 0 <= n <= 29
    ensures FirstRangeFrom(AgeGroups, n, 0).Some? ==> AgeGroups[FirstRangeFrom(AgeGroups, n, 0).value].name != NotSpecified
  {
    AgeGroupsCover(n);
    assert forall k :: 0 <= k < |AgeGroups| ==> AgeGroups[k].name != NotSpecified;
  }

  /** `map_sexo`: the three sex codes the sheet uses. */
  const SexLabels: map<int, string> := map[1 := "Masculino", 2 := "Femenino", 3 := "Indeterminado"]

  const Unknown: string := "Desconocido"

  /**
   * `df[col_sexo].map(map_sexo).fillna("Desconocido")` for one cell: 1, 2 and
   * 3 get their labels and every other value, missing included, is unknown.
   */
  function SexLabel(c: Cell): (r: string)
    ensures r == "Masculino" <==> c == Int(1)
    ensures r == "Femenino" <==> c == Int(2)
    ensures r == "Indeterminado" <==> c == Int(3)
    ensures r == Unknown <==> c != Int(1) && c != Int(2) && c != Int(3)
  {
    if c.Int? && c.i in SexLabels then SexLabels[c.i] else Unknown
  }

  /** The derived `Sexo_texto` column. */
  function SexColumn(cells: seq<Cell>): (labels: seq<Cell>)
    ensures |labels| == |cells|
    ensures forall i :: 0 <= i < |cells| ==> labels[i] == Str(SexLabel(cells[i]))
  {
    seq(|cells|, i requires 0 <= i < |cells| => Str(SexLabel(cells[i])))
  }
}
