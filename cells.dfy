/**
 * One cell of the mortality sheet, what `astype(str)` and `int()` make of
 * it, and the order pandas uses when it sorts group keys.
 */
module Cells {
  import opened Wrappers
  import opened Text

  /**
   * The shape of Python's `str()` of a float that is not NaN: `inf` or
   * `-inf`, or a digit or `-` first and a `.` or an exponent `e` somewhere.
   */
  predicate FloatText(s: string)
  {
    || s == "inf"
    || s == "-inf"
    || (|s| > 0 && (IsDigit(s[0]) || s[0] == '-') && ('.' in s || 'e' in s))
  }

  type FloatRepr = s: string | FloatText(s) witness "0.5"

  /**
   * A cell value. A float with an integral value (4.0) behaves like the
   * integer in Python (it compares and hashes equal, `int(4.0) == 4`), so it
   * is an `Int`; `Float` is any other number, given by its `str()` text and
   * by what `int()` makes of it (None for an infinity). `Missing` is NaN/None.
   */
  datatype Cell =
    | Int(i: int)
    | Str(s: string)
    | Float(repr: FloatRepr, trunc: Option<int>)
    | Missing

  /** `str(c)`, as `Series.astype(str)` renders a cell. */
  function Render(c: Cell): string
  {
    match c
    case Int(n) => Decimal(n)
    case Str(s) => s
    case Float(r, _) => r
    case Missing => "nan"
  }

  /** `int(c)`: None where Python raises. */
  function ToInt(c: Cell): Option<int>
  {
    match c
    case Int(n) => Some(n)
    case Str(s) => ParseInt(s)
    case Float(_, t) => t
    case Missing => None
  }

  /** The text of an integer cell converts back to the same integer. */
  lemma RenderIntConverts(n: int)
    ensures ToInt(Str(Render(Int(n)))) == Some(n)
  {
    ParseDecimal(n);
  }

  /** Strict lexicographic order on texts, by code point, as Python compares `str`. */
  predicate StrLess(a: string, b: string)
    decreases |a|
  {
    |b| > 0 && (|a| == 0 || a[0] < b[0] || (a[0] == b[0] && StrLess(a[1..], b[1..])))
  }

  lemma {:induction false} StrLessIrreflexive(a: string)
    ensures !StrLess(a, a)
    decreases |a|
  {
    if |a| > 0 {
      StrLessIrreflexive(a[1..]);
    }
  }

  lemma {:induction false} StrLessTransitive(a: string, b: string, c: string)
    requires StrLess(a, b) && StrLess(b, c)
    ensures StrLess(a, c)
    decreases |a|
  {
    if |a| > 0 && a[0] == b[0] && b[0] == c[0] {
      StrLessTransitive(a[1..], b[1..], c[1..]);
    }
  }

  lemma {:induction false} StrLessTotal(a: string, b: string)
    requires a != b
    ensures StrLess(a, b) || StrLess(b, a)
    decreases |a|
  {
    if |a| > 0 && |b| > 0 && a[0] == b[0] {
      assert a == [a[0]] + a[1..] && b == [b[0]] + b[1..];
      StrLessTotal(a[1..], b[1..]);
    }
  }

  /**
   * Rank of each kind of cell in the key order. Python cannot compare an `int`
   * with a `str`; the model orders kinds instead of raising.
   */
  function Rank(c: Cell): nat
  {
    match c
    case Int(_) => 0
    case Float(_, _) => 1
    case Str(_) => 2
    case Missing => 3
  }

  predicate OptionLess(a: Option<int>, b: Option<int>)
  {
    b.Some? && (a.None? || a.value < b.value)
  }

  /** Strict total order on cells: by kind, then by value. */
  predicate CellLess(a: Cell, b: Cell)
  {
    if Rank(a) != Rank(b) then Rank(a) < Rank(b)
    else match (a, b)
      case (Int(x), Int(y)) => x < y
      case (Str(x), Str(y)) => StrLess(x, y)
      case (Float(x, s), Float(y, t)) => StrLess(x, y) || (x == y && OptionLess(s, t))
      case _ => false
  }

  lemma CellLessIrreflexive(a: Cell)
    ensures !CellLess(a, a)
  {
    match a
    case Str(x) => StrLessIrreflexive(x);
    case Float(x, _) => StrLessIrreflexive(x);
    case _ =>
  }

  lemma CellLessTransitive(a: Cell, b: Cell, c: Cell)
    requires CellLess(a, b) && CellLess(b, c)
    ensures CellLess(a, c)
  {
    if Rank(a) == Rank(b) == Rank(c) {
      match (a, b, c)
      case (Str(x), Str(y), Str(z)) => StrLessTransitive(x, y, z);
      case (Float(x, _), Float(y, _), Float(z, _)) =>
        if StrLess(x, y) && StrLess(y, z) {
          StrLessTransitive(x, y, z);
        }
      case _ =>
    }
  }

  lemma CellLessTotal(a: Cell, b: Cell)
    requires a != b
    ensures CellLess(a, b) || CellLess(b, a)
  {
    if Rank(a) == Rank(b) {
      match (a, b)
      case (Str(x), Str(y)) => StrLessTotal(x, y);
      case (Float(x, _), Float(y, _)) =>
        if x != y {
          StrLessTotal(x, y);
        }
      case _ =>
    }
  }

  /** A group key: the cells of the grouping columns of one row. */
  type Key = seq<Cell>

  /** Lexicographic order on keys, the order of pandas' grouped output. */
  predicate KeyLess(a: Key, b: Key)
    decreases |a|
  {
    |b| > 0 && (|a| == 0 || CellLess(a[0], b[0]) || (a[0] == b[0] && KeyLess(a[1..], b[1..])))
  }

  lemma {:induction false} KeyLessIrreflexive(a: Key)
    ensures !KeyLess(a, a)
    decreases |a|
  {
    if |a| > 0 {
      CellLessIrreflexive(a[0]);
      KeyLessIrreflexive(a[1..]);
    }
  }

  lemma {:induction false} KeyLessTransitive(a: Key, b: Key, c: Key)
    requires KeyLess(a, b) && KeyLess(b, c)
    ensures KeyLess(a, c)
    decreases |a|
  {
    if |a| > 0 {
      if CellLess(a[0], b[0]) && CellLess(b[0], c[0]) {
        CellLessTransitive(a[0], b[0], c[0]);
      } else if a[0] == b[0] && b[0] == c[0] {
        KeyLessTransitive(a[1..], b[1..], c[1..]);
      }
    }
  }

  lemma {:induction false} KeyLessTotal(a: Key, b: Key)
    requires a != b
    ensures KeyLess(a, b) || KeyLess(b, a)
    decreases |a|
  {
    if |a| > 0 && |b| > 0 {
      if a[0] == b[0] {
        assert a == [a[0]] + a[1..] && b == [b[0]] + b[1..];
        KeyLessTotal(a[1..], b[1..]);
      } else {
        CellLessTotal(a[0], b[0]);
      }
    }
  }
}
