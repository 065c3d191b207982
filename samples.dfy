/**
 * A worked instance of the homicide ranking: four deaths, three of them with
 * an X95 cause code, in three municipalities.
 */
module Samples {
  import opened Wrappers
  import opened Cells
  import opened Frames
  import opened GroupBy
  import opened Tables
  import opened Dashboard

  /** Columns `COD_MUERTE` and `MUNICIPIO`; the Y10 row is not a homicide. */
  const Sample: Frame := Frame(
    ["COD_MUERTE", "MUNICIPIO"],
    [[Str("X95A"), Str("M1")], [Str("X95B"), Str("M2")], [Str("Y10"), Str("M3")], [Str("X95A"), Str("M1")]])

  /** The X95 filter keeps the first, second and fourth rows. */
  lemma SampleHomicides()
    ensures Homicides(Sample, 0).rows == [Sample.rows[0], Sample.rows[1], Sample.rows[3]]
  {
    var r := Sample.rows;
    assert IsHomicideCode(Str("X95A")) && IsHomicideCode(Str("X95B")) by {
      assert "X95A"[..3] == "X95" && "X95B"[..3] == "X95";
    }
    assert !IsHomicideCode(Str("Y10")) by {
      assert "Y10"[0] != 'X';
    }
    assert r[1..] == [r[1], r[2], r[3]] && r[1..][1..] == [r[2], r[3]] && r[1..][1..][1..] == [r[3]];
    assert |[r[3]][1..]| == 0;
    assert HomicideRows([r[3]], 2, 0) == [r[3]];
    assert HomicideRows([r[2], r[3]], 2, 0) == [r[3]];
    assert HomicideRows([r[1], r[2], r[3]], 2, 0) == [r[1], r[3]];
  }

  /** `MUNICIPIO` is the second column of the homicide subset. */
  lemma SampleLookup()
    ensures LookupAll(Homicides(Sample, 0), [Some("MUNICIPIO")]) == Ok([1])
  {
    var h := Homicides(Sample, 0);
    assert IndexOf(h.columns, "MUNICIPIO") == Some(1) by {
      assert h.columns[1..] == ["MUNICIPIO"];
    }
    var names := [Some("MUNICIPIO")];
    assert Lookup(h, names[0]) == Ok(1);
    var none: seq<nat> := [];
    assert |names[1..]| == 0 && LookupAll(h, names[1..]) == Ok(none);
    assert [1] + none == [1];
  }

  /** The municipality keys of the homicide rows, none missing. */
  lemma SampleKeys()
    ensures Dropna(Projected(Homicides(Sample, 0), [1])) == [[Str("M1")], [Str("M2")], [Str("M1")]]
  {
    var h := Homicides(Sample, 0);
    SampleHomicides();
    var m1, m2 := [Str("M1")], [Str("M2")];
    var keys := Projected(h, [1]);
    assert keys == [m1, m2, m1] by {
      assert keys[0] == Project(h.rows[0], [1]) == m1;
      assert keys[1] == Project(h.rows[1], [1]) == m2;
      assert keys[2] == Project(h.rows[2], [1]) == m1;
    }
    assert Present(m1) && Present(m2);
    var last: seq<Key> := [m1];
    assert keys[1..] == [m2, m1] && keys[1..][1..] == last && |last[1..]| == 0;
    assert Dropna(last) == last;
  }

  /** Counting M1, M2, M1 gives M1 twice and M2 once, in key order. */
  lemma SampleCounts()
    ensures GroupSize([[Str("M1")], [Str("M2")], [Str("M1")]]) == [Group([Str("M1")], 2), Group([Str("M2")], 1)]
  {
    var m1, m2 := [Str("M1")], [Str("M2")];
    var keys := [m1, m2, m1];
    assert !KeyLess(m2, m1) by {
      assert !StrLess("M2", "M1");
    }
    assert m1 != m2 by {
      assert m1[0].s[1] != m2[0].s[1];
    }
    var last: seq<Key> := [m1];
    var first: seq<Key> := [m1, m2];
    assert keys[..2] == first && first[..1] == last && |last[..0]| == 0;
    assert GroupSize(last) == [Group(m1, 1)];
    assert Insert([Group(m1, 1)], m2) == [Group(m1, 1), Group(m2, 1)] by {
      assert |[Group(m1, 1)][1..]| == 0;
    }
    assert GroupSize(first) == [Group(m1, 1), Group(m2, 1)];
    assert Insert([Group(m1, 1), Group(m2, 1)], m1) == [Group(m1, 2), Group(m2, 1)] by {
      assert [Group(m1, 1), Group(m2, 1)][1..] == [Group(m2, 1)];
    }
  }

  /** `df_hom.groupby("MUNICIPIO").size()` on the sample. */
  lemma SampleGroupCounts()
    ensures GroupCounts(Homicides(Sample, 0), [Some("MUNICIPIO")]) == Ok([Group([Str("M1")], 2), Group([Str("M2")], 1)])
  {
    var h := Homicides(Sample, 0);
    SampleLookup();
    SampleKeys();
    SampleCounts();
    assert GroupCounts(h, [Some("MUNICIPIO")]) == Ok(CountKeys(Projected(h, [1])));
  }

  /**
   * Four deaths with cause codes X95A, X95B, Y10, X95A in municipalities M1,
   * M2, M3, M1: the ranking is M1 with two homicides, then M2 with one.
   */
  lemma SampleRanking()
    ensures HomicideRanking(Sample, "COD_MUERTE") == Ok(Summary(["MUNICIPIO", "Total_homicidios"], [Group([Str("M1")], 2), Group([Str("M2")], 1)]))
  {
    assert Lookup(Sample, Some("COD_MUERTE")) == Ok(0);
    SampleGroupCounts();
    var m1, m2 := [Str("M1")], [Str("M2")];
    var gs := [Group(m1, 2), Group(m2, 1)];
    assert gs[1..] == [Group(m2, 1)] && |[Group(m2, 1)][1..]| == 0;
    assert SortByCount([Group(m2, 1)], true) == [Group(m2, 1)];
    assert SortByCount(gs, true) == gs;
    assert Head(gs, 5) == gs;
  }
}
