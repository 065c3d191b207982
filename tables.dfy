/**
 * The result tables of the dashboard: `df.groupby(names).size().reset_index(name=...)`
 * on a frame, the rows it counts and the ones it drops, and `rename(columns=...)`.
 */
module Tables {
  import opened Wrappers
  import opened Cells
  import opened Frames
  import opened GroupBy

  /** A result table: its column labels (the key columns, then the count column) and its rows. */
  datatype Summary = Summary(labels: seq<string>, groups: seq<Group>)

  /** A key with no missing cell; `groupby` (with `dropna=True`) drops every other row. */
  predicate Present(k: Key)
  {
    forall j :: 0 <= j < |k| ==> !k[j].Missing?
  }

  /** The cells of one row at the given column positions. */
  function Project(row: Row, idx: seq<nat>): (k: Key)
    requires forall j :: 0 <= j < |idx| ==> idx[j] < |row|
    ensures |k| == |idx|
    ensures forall j :: 0 <= j < |idx| ==> k[j] == row[idx[j]]
  {
    seq(|idx|, j requires 0 <= j < |idx| => row[idx[j]])
  }

  /** The grouping key of every row, in row order. */
  function Projected(f: Frame, idx: seq<nat>): (keys: seq<Key>)
    requires WellFormed(f) && forall j :: 0 <= j < |idx| ==> idx[j] < |f.columns|
    ensures |keys| == |f.rows|
    ensures forall i :: 0 <= i < |f.rows| ==> keys[i] == Project(f.rows[i], idx)
  {
    seq(|f.rows|, i requires 0 <= i < |f.rows| => Project(f.rows[i], idx))
  }

  /** The keys `groupby` counts: those of rows without a missing key cell, in row order. */
  function Dropna(keys: seq<Key>): (r: seq<Key>)
    ensures forall i :: 0 <= i < |r| ==> Present(r[i])
    ensures |r| <= |keys|
  {
    if keys == [] then []
    else if Present(keys[0]) then [keys[0]] + Dropna(keys[1..])
    else Dropna(keys[1..])
  }

  /** A key is counted once per row that carries it, unless one of its cells is missing. */
  lemma {:induction false} DropnaCounts(keys: seq<Key>, k: Key)
    ensures multiset(Dropna(keys))[k] == if Present(k) then multiset(keys)[k] else 0
  {
    if keys != [] {
      DropnaCounts(keys[1..], k);
      assert keys == [keys[0]] + keys[1..];
    }
  }

  /** Without missing cells nothing is dropped. */
  lemma {:induction false} DropnaAllPresent(keys: seq<Key>)
    requires forall i :: 0 <= i < |keys| ==> Present(keys[i])
    ensures Dropna(keys) == keys
  {
    if keys != [] {
      DropnaAllPresent(keys[1..]);
      assert keys == [keys[0]] + keys[1..];
    }
  }

  /**
   * What `groupby(...).size()` promises about the rows it counts: the groups
   * are ascending by key, each key is present and counts the rows that carry
   * it, every row with a present key has its group, and the counts add up to
   * the number of those rows.
   */
  predicate GroupedRows(gs: seq<Group>, keys: seq<Key>)
  {
    && KeySorted(gs)
    && (forall i :: 0 <= i < |gs| ==> Present(gs[i].key) && gs[i].count >= 1 && gs[i].count == multiset(keys)[gs[i].key])
    && (forall k :: k in keys && Present(k) ==> exists i :: 0 <= i < |gs| && gs[i].key == k)
    && Total(gs) == |Dropna(keys)|
  }

  /** Counting the keys that survive `dropna`. */
  function CountKeys(keys: seq<Key>): seq<Group>
  {
    GroupSize(Dropna(keys))
  }

  /** `CountKeys` groups exactly the rows whose key has no missing cell. */
  lemma CountKeysGroups(keys: seq<Key>)
    ensures GroupedRows(CountKeys(keys), keys)
    ensures IsGrouping(CountKeys(keys), Dropna(keys))
  {
    var kept := Dropna(keys);
    var gs := CountKeys(keys);
    GroupSizeIsGrouping(kept);
    forall i | 0 <= i < |gs|
      ensures Present(gs[i].key) && gs[i].count == multiset(keys)[gs[i].key]
    {
      DropnaCounts(keys, gs[i].key);
      assert gs[i].key in kept;
    }
    forall k | k in keys && Present(k)
      ensures exists i :: 0 <= i < |gs| && gs[i].key == k
    {
      DropnaCounts(keys, k);
      assert k in kept;
    }
  }

  /**
   * `df.groupby(names).size()`: `KeyError` for the first name the frame has no
   * column for, otherwise the counts of the rows' keys at those columns.
   */
  function GroupCounts(f: Frame, names: seq<Option<string>>): (r: Result<seq<Group>>)
    requires WellFormed(f)
    ensures r.Ok? <==> LookupAll(f, names).Ok?
    ensures r.Err? ==> r.error == LookupAll(f, names).error
  {
    var idx :- LookupAll(f, names);
    Ok(CountKeys(Projected(f, idx)))
  }

  /** The counts `groupby(...).size()` gives are those of the rows' keys at the named columns. */
  lemma GroupCountsRows(f: Frame, names: seq<Option<string>>)
    requires WellFormed(f) && GroupCounts(f, names).Ok?
    ensures GroupedRows(GroupCounts(f, names).value, Projected(f, LookupAll(f, names).value))
  {
    CountKeysGroups(Projected(f, LookupAll(f, names).value));
  }

  /** `rename(columns=renames)`: relabels the columns it names and changes no row. */
  function Rename(s: Summary, renames: map<string, string>): (r: Summary)
    ensures r.groups == s.groups && |r.labels| == |s.labels|
    ensures forall j :: 0 <= j < |s.labels| ==> r.labels[j] == if s.labels[j] in renames then renames[s.labels[j]] else s.labels[j]
  {
    Summary(seq(|s.labels|, j requires 0 <= j < |s.labels| => if s.labels[j] in renames then renames[s.labels[j]] else s.labels[j]), s.groups)
  }
}
