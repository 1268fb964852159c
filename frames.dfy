/**
 * The slice of a pandas DataFrame that the cleaning script relies on.
 *
 * A frame is a list of columns (name and kind) and a list of rows of equal
 * width. A cell is missing (pandas' NaN / None), a number or a text. Values
 * are exact reals rather than IEEE doubles.
 */
module Frames {

  datatype Option<+T> = None | Some(value: T)

  /** One cell of a frame; `Missing` is what `isnull()` reports as true. */
  datatype Cell = Missing | Num(value: real) | Str(text: string)

  /**
   * The dtype family of a column: what `select_dtypes(include="number")`
   * selects, what `select_dtypes(include="object")` selects, and the rest
   * (booleans, datetimes, categories).
   */
  datatype Kind = Numeric | Text | Other

  datatype Column = Column(name: string, kind: Kind)

  type Row = seq<Cell>

  /** Every row has exactly `width` cells. */
  predicate Rectangular(rows: seq<Row>, width: nat)
  {
    forall i :: 0 <= i < |rows| ==> |rows[i]| == width
  }

  datatype Frame = Frame(columns: seq<Column>, rows: seq<Row>)
  {
    /** A frame has one cell per column in every row. */
    predicate Valid()
    {
      Rectangular(rows, |columns|)
    }

    /** Numeric columns hold only numbers and missing cells (a numeric dtype cannot hold text). */
    predicate WellTyped()
    {
      Valid() &&
      forall i, c :: 0 <= i < |rows| && 0 <= c < |columns| && columns[c].kind.Numeric? ==>
        rows[i][c].Missing? || rows[i][c].Num?
    }
  }

  /** A frame whose rows all occur among the rows of another keeps its shape. */
  lemma RectangularSubset(rows: seq<Row>, sub: seq<Row>, width: nat)
    requires Rectangular(rows, width)
    requires forall x :: x in sub ==> x in rows
    ensures Rectangular(sub, width)
  {
    forall i | 0 <= i < |sub|
      ensures |sub[i]| == width
    {
      assert sub[i] in rows;
    }
  }

  /** `df[col]`: the cells of column `c`, one per row. */
  function ColumnOf(rows: seq<Row>, c: nat): (s: seq<Cell>)
    requires forall i :: 0 <= i < |rows| ==> c < |rows[i]|
    ensures |s| == |rows|
    ensures forall i :: 0 <= i < |rows| ==> s[i] == rows[i][c]
  {
    seq(|rows|, i requires 0 <= i < |rows| => rows[i][c])
  }

  /** `df[col] = s`: column `c` becomes `s`; every other cell and the shape stay. */
  function SetColumn(rows: seq<Row>, c: nat, s: seq<Cell>): (r: seq<Row>)
    requires |s| == |rows|
    requires forall i :: 0 <= i < |rows| ==> c < |rows[i]|
    ensures |r| == |rows|
    ensures forall i :: 0 <= i < |r| ==> |r[i]| == |rows[i]| && r[i][c] == s[i]
    ensures forall i, j :: 0 <= i < |r| && 0 <= j < |r[i]| && j != c ==> r[i][j] == rows[i][j]
  {
    seq(|rows|, i requires 0 <= i < |rows| => rows[i][c := s[i]])
  }

  /** The value a cell holds after `fillna(v)`: a missing cell becomes `v`, any other cell stays. */
  function FillCell(x: Cell, v: Cell): Cell
  {
    if x.Missing? then v else x
  }

  /** `Series.fillna(v)`, element by element. */
  function Fillna(s: seq<Cell>, v: Cell): (r: seq<Cell>)
    ensures |r| == |s|
    ensures forall i :: 0 <= i < |s| ==> r[i] == FillCell(s[i], v)
  {
    if s == [] then [] else [FillCell(s[0], v)] + Fillna(s[1..], v)
  }

  /** How many cells of `s` are missing. */
  function MissingCount(s: seq<Cell>): (n: nat)
    ensures n <= |s|
    ensures n == 0 <==> forall i :: 0 <= i < |s| ==> !s[i].Missing?
  {
    if s == [] then 0 else (if s[0].Missing? then 1 else 0) + MissingCount(s[1..])
  }

  /** The numbers of `s` in order, skipping every cell that is not a number. */
  function Values(s: seq<Cell>): (v: seq<real>)
    ensures |v| <= |s|
    ensures |v| == 0 <==> forall i :: 0 <= i < |s| ==> !s[i].Num?
  {
    if s == [] then []
    else (if s[0].Num? then [s[0].value] else []) + Values(s[1..])
  }

  function Sum(v: seq<real>): real
  {
    if v == [] then 0.0 else v[0] + Sum(v[1..])
  }

  /** `x` added up `k` times, that is `k * x` without a product of two unknowns. */
  function Times(k: nat, x: real): real
  {
    if k == 0 then 0.0 else Times(k - 1, x) + x
  }

  lemma {:induction false} TimesIsProduct(k: nat, x: real)
    ensures Times(k, x) == k as real * x
  {
    if k > 0 {
      TimesIsProduct(k - 1, x);
      assert (k - 1) as real * x + x == k as real * x;
    }
  }

  /**
   * `Series.mean()` with its default `skipna=True`: the arithmetic mean of
   * the numbers of `s`, or `None` (pandas answers NaN) when there are none.
   * Adding the mean up once per number gives back their sum.
   */
  function Mean(s: seq<Cell>): (m: Option<real>)
    ensures m.None? <==> |Values(s)| == 0
    ensures m.Some? ==> Times(|Values(s)|, m.value) == Sum(Values(s))
  {
    var v := Values(s);
    if |v| == 0 then None
    else
      var n := |v| as real;
      TimesIsProduct(|v|, Sum(v) / n);
      assert Sum(v) / n * n == Sum(v);
      Some(Sum(v) / n)
  }

  lemma {:induction false} TimesAdd(a: nat, b: nat, x: real)
    ensures Times(a + b, x) == Times(a, x) + Times(b, x)
  {
    if b > 0 {
      TimesAdd(a, b - 1, x);
    }
  }

  /** For a positive count, repeated addition is strictly monotonic in the value added. */
  lemma {:induction false} TimesMonotonic(k: nat, x: real, y: real)
    requires 0 < k && x < y
    ensures Times(k, x) < Times(k, y)
  {
    if k > 1 {
      TimesMonotonic(k - 1, x, y);
    }
  }

  /** The sum of numbers that all lie in [lo, hi] lies between `n` copies of `lo` and of `hi`. */
  lemma {:induction false} SumWithin(v: seq<real>, lo: real, hi: real)
    requires forall k :: 0 <= k < |v| ==> lo <= v[k] <= hi
    ensures Times(|v|, lo) <= Sum(v) <= Times(|v|, hi)
  {
    if v != [] {
      SumWithin(v[1..], lo, hi);
    }
  }

  /** The mean of a column lies between any lower and upper bound of its numbers. */
  lemma MeanWithin(s: seq<Cell>, lo: real, hi: real)
    requires Mean(s).Some?
    requires forall k :: 0 <= k < |Values(s)| ==> lo <= Values(s)[k] <= hi
    ensures lo <= Mean(s).value <= hi
  {
    var m := Mean(s).value;
    SumWithin(Values(s), lo, hi);
    if m < lo {
      TimesMonotonic(|Values(s)|, m, lo);
    }
    if hi < m {
      TimesMonotonic(|Values(s)|, hi, m);
    }
  }

  /** Filling the missing cells with `x` adds one number per missing cell. */
  lemma {:induction false} FillnaCount(s: seq<Cell>, x: real)
    ensures |Values(Fillna(s, Num(x)))| == |Values(s)| + MissingCount(s)
  {
    if s != [] {
      var f := Fillna(s, Num(x));
      assert f[1..] == Fillna(s[1..], Num(x));
      FillnaCount(s[1..], x);
    }
  }

  /** The number a cell contributes to a sum of the numbers of a column. */
  function Contribution(x: Cell): real
  {
    if x.Num? then x.value else 0.0
  }

  lemma SumOfValues(t: seq<Cell>)
    requires t != []
    ensures Sum(Values(t)) == Contribution(t[0]) + Sum(Values(t[1..]))
  {
    var rest := Values(t[1..]);
    if t[0].Num? {
      assert Values(t) == [t[0].value] + rest;
      assert ([t[0].value] + rest)[1..] == rest;
    } else {
      assert Values(t) == rest;
    }
  }

  /** Filling the missing cells with `x` adds `x` once per missing cell to the sum. */
  lemma {:induction false} FillnaSum(s: seq<Cell>, x: real)
    ensures Sum(Values(Fillna(s, Num(x)))) == Sum(Values(s)) + Times(MissingCount(s), x)
  {
    if s != [] {
      var f := Fillna(s, Num(x));
      assert f[1..] == Fillna(s[1..], Num(x));
      FillnaSum(s[1..], x);
      SumOfValues(f);
      SumOfValues(s);
      if s[0].Missing? {
        assert Times(MissingCount(s), x) == Times(MissingCount(s[1..]), x) + x;
      }
    }
  }

  /** A column whose numbers add up to `n` copies of `m` has mean `m`. */
  lemma MeanFromSum(s: seq<Cell>, m: real)
    requires |Values(s)| > 0
    requires Sum(Values(s)) == Times(|Values(s)|, m)
    ensures Mean(s) == Some(m)
  {
    var m' := Mean(s).value;
    if m' < m {
      TimesMonotonic(|Values(s)|, m', m);
    }
    if m < m' {
      TimesMonotonic(|Values(s)|, m, m');
    }
  }

  /**
   * Filling a column with its own mean leaves the mean unchanged, so
   * computing the mean before or after `fillna` gives the same value.
   */
  lemma MeanOfFilled(s: seq<Cell>, m: real)
    requires Mean(s) == Some(m)
    ensures Mean(Fillna(s, Num(m))) == Some(m)
  {
    var t := Fillna(s, Num(m));
    var n, k := |Values(s)|, MissingCount(s);
    FillnaCount(s, m);
    FillnaSum(s, m);
    TimesAdd(n, k, m);
    assert |Values(t)| == n + k;
    assert Sum(Values(t)) == Times(n + k, m);
    MeanFromSum(t, m);
  }
}
