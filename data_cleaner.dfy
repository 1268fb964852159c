/**
 * `clean_data` of data_cleaner.py: drop duplicate rows, then fill the
 * missing cells of every numeric column with that column's mean, then fill
 * the missing cells of every text column with "Unknown".
 *
 * `CleanData` follows the script step by step: deduplication, then one
 * `FillPass` per dtype, each writing filled columns back into the frame.
 * `Clean` says cell by cell what the result is, and the lemmas below state
 * what that result guarantees.
 */
module DataCleaner {
  import opened Frames
  import opened Deduplication

  /** The placeholder written into missing text cells. */
  const Unknown: string := "Unknown"

  /**
   * What `fillna(df[col].mean())` writes into a numeric column: the mean as
   * a number or, when the column holds no number, NaN, which is itself a
   * missing cell, so that filling with it changes nothing.
   */
  function MeanFill(s: seq<Cell>): Cell
  {
    match Mean(s)
    case Some(m) => Num(m)
    case None => Missing
  }

  /** The value the script fills a column of kind `k` with, given the column's cells `s`. */
  function FillValue(k: Kind, s: seq<Cell>): Cell
  {
    match k
    case Numeric => MeanFill(s)
    case Text => Str(Unknown)
    case Other => Missing
  }

  /** The fill value of every column, each computed from `rows` before anything is filled. */
  function Fills(columns: seq<Column>, rows: seq<Row>): (fills: seq<Cell>)
    requires Rectangular(rows, |columns|)
    ensures |fills| == |columns|
  {
    seq(|columns|, c requires 0 <= c < |columns| => FillValue(columns[c].kind, ColumnOf(rows, c)))
  }

  function FillRow(row: Row, fills: seq<Cell>): (r: Row)
    requires |row| == |fills|
    ensures |r| == |row|
  {
    seq(|row|, c requires 0 <= c < |row| => FillCell(row[c], fills[c]))
  }

  /** Both fill passes over a frame whose rows are `rows`. */
  function Impute(columns: seq<Column>, rows: seq<Row>): (r: seq<Row>)
    requires Rectangular(rows, |columns|)
    ensures |r| == |rows| && Rectangular(r, |columns|)
  {
    var fills := Fills(columns, rows);
    seq(|rows|, i requires 0 <= i < |rows| => FillRow(rows[i], fills))
  }

  /**
   * The rows left by `df.drop_duplicates()`. pandas returns a frame that is
   * empty along either axis unchanged, so a frame without columns keeps all
   * of its (empty) rows; otherwise each row is kept the first time it occurs.
   */
  function Deduped(f: Frame): (d: seq<Row>)
    requires f.Valid()
    ensures Rectangular(d, |f.columns|)
  {
    if |f.columns| == 0 then f.rows
    else
      RectangularSubset(f.rows, DropDuplicates(f.rows), |f.columns|);
      DropDuplicates(f.rows)
  }

  /** The frame `clean_data(df)` returns. */
  function Clean(f: Frame): (g: Frame)
    requires f.Valid()
    ensures g.Valid()
  {
    Frame(f.columns, Impute(f.columns, Deduped(f)))
  }

  /** Whether column `j`, of kind `k`, is filled once the pass over kind `pass` has reached column `c`. */
  predicate Done(k: Kind, j: nat, pass: Kind, c: nat)
  {
    if pass.Numeric? then k.Numeric? && j < c
    else k.Numeric? || (k.Text? && j < c)
  }

  /** A row part-way through the passes: the columns that are done hold their filled cells. */
  function PartialRow(columns: seq<Column>, fills: seq<Cell>, row: Row, pass: Kind, c: nat): (r: Row)
    requires |row| == |columns| == |fills|
    ensures |r| == |columns|
  {
    seq(|columns|, j requires 0 <= j < |columns| =>
      if Done(columns[j].kind, j, pass, c) then FillCell(row[j], fills[j]) else row[j])
  }

  /** The rows part-way through the passes: `d` with the columns that are done filled in. */
  function Partial(columns: seq<Column>, d: seq<Row>, pass: Kind, c: nat): (r: seq<Row>)
    requires Rectangular(d, |columns|)
    ensures |r| == |d| && Rectangular(r, |columns|)
  {
    var fills := Fills(columns, d);
    seq(|d|, i requires 0 <= i < |d| => PartialRow(columns, fills, d[i], pass, c))
  }

  /**
   * One step of a pass over a column of the pass's kind: the column is still
   * as `d` has it, so its fill value is the one computed up front, and
   * writing its filled copy back finishes it.
   */
  lemma PassFills(columns: seq<Column>, d: seq<Row>, pass: Kind, c: nat, rows: seq<Row>, next: seq<Row>)
    requires Rectangular(d, |columns|) && c < |columns| && columns[c].kind == pass && !pass.Other?
    requires rows == Partial(columns, d, pass, c)
    requires next == SetColumn(rows, c, Fillna(ColumnOf(rows, c), FillValue(pass, ColumnOf(rows, c))))
    ensures next == Partial(columns, d, pass, c + 1)
  {
    var after := Partial(columns, d, pass, c + 1);
    assert ColumnOf(rows, c) == ColumnOf(d, c);
    assert FillValue(pass, ColumnOf(rows, c)) == Fills(columns, d)[c];
    forall i | 0 <= i < |d|
      ensures next[i] == after[i]
    {
      forall j | 0 <= j < |columns|
        ensures next[i][j] == after[i][j]
      {
      }
    }
  }

  /** One step of a pass over a column of another kind: nothing changes. */
  lemma PassSkips(columns: seq<Column>, d: seq<Row>, pass: Kind, c: nat)
    requires Rectangular(d, |columns|) && c < |columns| && columns[c].kind != pass && !pass.Other?
    ensures Partial(columns, d, pass, c) == Partial(columns, d, pass, c + 1)
  {
    var rows, after := Partial(columns, d, pass, c), Partial(columns, d, pass, c + 1);
    forall i | 0 <= i < |d|
      ensures rows[i] == after[i]
    {
      forall j | 0 <= j < |columns|
        ensures rows[i][j] == after[i][j]
      {
      }
    }
  }

  /** The numeric pass starts from the deduplicated rows. */
  lemma PassStart(columns: seq<Column>, d: seq<Row>)
    requires Rectangular(d, |columns|)
    ensures Partial(columns, d, Numeric, 0) == d
  {
    var first := Partial(columns, d, Numeric, 0);
    forall i | 0 <= i < |d|
      ensures first[i] == d[i]
    {
    }
  }

  /** The text pass starts where the numeric pass ends. */
  lemma PassHandover(columns: seq<Column>, d: seq<Row>)
    requires Rectangular(d, |columns|)
    ensures Partial(columns, d, Numeric, |columns|) == Partial(columns, d, Text, 0)
  {
    var mid, next := Partial(columns, d, Numeric, |columns|), Partial(columns, d, Text, 0);
    forall i | 0 <= i < |d|
      ensures mid[i] == next[i]
    {
    }
  }

  /** Once the text pass ends, every column has been filled. */
  lemma PassEnd(columns: seq<Column>, d: seq<Row>)
    requires Rectangular(d, |columns|)
    ensures Partial(columns, d, Text, |columns|) == Impute(columns, d)
  {
    var last := Partial(columns, d, Text, |columns|);
    forall i | 0 <= i < |d|
      ensures last[i] == Impute(columns, d)[i]
    {
    }
  }

  /**
   * One of the script's two loops: for each column selected by dtype
   * `pass`, in column order, the column is replaced by its filled copy; the
   * fill value (the mean, or "Unknown") is computed from the column as it is
   * at that moment.
   */
  method FillPass(columns: seq<Column>, ghost d: seq<Row>, pass: Kind, start: seq<Row>) returns (rows: seq<Row>)
    requires Rectangular(d, |columns|) && !pass.Other?
    requires start == Partial(columns, d, pass, 0)
    ensures rows == Partial(columns, d, pass, |columns|)
  {
    rows := start;
    for c := 0 to |columns|
      invariant rows == Partial(columns, d, pass, c)
    {
      if columns[c].kind == pass {
        var column := ColumnOf(rows, c);
        var next := SetColumn(rows, c, Fillna(column, FillValue(pass, column)));
        PassFills(columns, d, pass, c, rows, next);
        rows := next;
      } else {
        PassSkips(columns, d, pass, c);
      }
    }
  }

  /**
   * The script's `clean_data`: deduplicate, then the loop over the numeric
   * columns, then the loop over the text columns.
   */
  method CleanData(f: Frame) returns (g: Frame)
    requires f.Valid()
    ensures g == Clean(f)
  {
    var rows := Deduped(f);
    PassStart(f.columns, rows);
    var filled := FillPass(f.columns, rows, Numeric, rows);
    PassHandover(f.columns, rows);
    filled := FillPass(f.columns, rows, Text, filled);
    PassEnd(f.columns, rows);
    g := Frame(f.columns, filled);
  }

  /**
   * Shape: the column list is unchanged, the row count never grows, and it
   * stays the same exactly when the frame has no columns or the input had
   * no duplicate rows. A frame without columns comes back unchanged.
   */
  lemma CleanShape(f: Frame)
    requires f.Valid()
    ensures Clean(f).columns == f.columns
    ensures |Clean(f).rows| <= |f.rows|
    ensures |Clean(f).rows| == |f.rows| <==> |f.columns| == 0 || NoDuplicates(f.rows)
    ensures |f.columns| == 0 ==> Clean(f).rows == f.rows
  {
    DropDuplicatesLength(f.rows);
    if |f.columns| == 0 {
      forall i | 0 <= i < |f.rows|
        ensures Clean(f).rows[i] == f.rows[i]
      {
        assert |f.rows[i]| == 0;
      }
    }
  }

  /**
   * Row provenance: every input row appears in the output once its missing
   * cells are filled; each output row is the filled first occurrence of its
   * value; and, when the frame has columns, the kept rows are in the order
   * of their first occurrences.
   */
  lemma CleanRows(f: Frame)
    requires f.Valid()
    ensures var d, fills := Deduped(f), Fills(f.columns, Deduped(f));
      && (forall i :: 0 <= i < |f.rows| ==> FillRow(f.rows[i], fills) in Clean(f).rows)
      && (forall k :: 0 <= k < |d| ==>
            d[k] in f.rows && Clean(f).rows[k] == FillRow(f.rows[FirstIndex(f.rows, d[k])], fills))
      && (|f.columns| > 0 ==> InFirstOccurrenceOrder(f.rows, d))
  {
    var d, fills := Deduped(f), Fills(f.columns, Deduped(f));
    var out := Clean(f).rows;
    forall i | 0 <= i < |f.rows|
      ensures FillRow(f.rows[i], fills) in out
    {
      assert f.rows[i] in d;
      var k :| 0 <= k < |d| && d[k] == f.rows[i];
      assert out[k] == FillRow(d[k], fills);
    }
    DropDuplicatesInOrder(f.rows);
  }

  /**
   * A numeric column: when it holds at least one number, each missing cell
   * becomes the mean of the deduplicated column's numbers and no missing
   * cell is left; when it holds none, the mean is undefined and the column
   * comes out unchanged (all missing, if the column is well typed).
   */
  lemma CleanNumericColumn(f: Frame, c: nat)
    requires f.Valid() && c < |f.columns| && f.columns[c].kind.Numeric?
    ensures var d, out := Deduped(f), Clean(f).rows;
      match Mean(ColumnOf(d, c))
      case Some(m) =>
        && (forall k :: 0 <= k < |out| ==> out[k][c] == if d[k][c].Missing? then Num(m) else d[k][c])
        && MissingCount(ColumnOf(out, c)) == 0
      case None =>
        && ColumnOf(out, c) == ColumnOf(d, c)
        && (f.WellTyped() ==> forall k :: 0 <= k < |out| ==> out[k][c].Missing?)
  {
    var d: seq<Row>, out: seq<Row> := Deduped(f), Clean(f).rows;
    var fills := Fills(f.columns, d);
    assert fills[c] == MeanFill(ColumnOf(d, c));
    if Mean(ColumnOf(d, c)).None? && f.WellTyped() {
      forall k | 0 <= k < |out|
        ensures out[k][c].Missing?
      {
        assert d[k] in f.rows;
        var i :| 0 <= i < |f.rows| && f.rows[i] == d[k];
        assert !ColumnOf(d, c)[k].Num?;
      }
    }
  }

  /** A text column: every missing cell becomes exactly "Unknown", and none is left. */
  lemma CleanTextColumn(f: Frame, c: nat)
    requires f.Valid() && c < |f.columns| && f.columns[c].kind.Text?
    ensures var d, out := Deduped(f), Clean(f).rows;
      && (forall k :: 0 <= k < |out| ==> out[k][c] == if d[k][c].Missing? then Str(Unknown) else d[k][c])
      && MissingCount(ColumnOf(out, c)) == 0
  {
  }

  /** A column of any other dtype is left exactly as deduplication left it. */
  lemma CleanOtherColumn(f: Frame, c: nat)
    requires f.Valid() && c < |f.columns| && f.columns[c].kind.Other?
    ensures ColumnOf(Clean(f).rows, c) == ColumnOf(Deduped(f), c)
  {
  }

  /** Only missing cells change: a cell that was present keeps its value. */
  lemma CleanOnlyFillsMissing(f: Frame)
    requires f.Valid()
    ensures var d, out := Deduped(f), Clean(f).rows;
      forall k, c :: 0 <= k < |out| && 0 <= c < |f.columns| && out[k][c] != d[k][c] ==> d[k][c].Missing?
  {
  }

  /**
   * The cleaned frame has no missing cell left that cleaning could fill:
   * a missing cell survives only in a column of another dtype or in a
   * numeric column without any number.
   */
  predicate Settled(columns: seq<Column>, rows: seq<Row>)
  {
    Rectangular(rows, |columns|) &&
    forall i, c :: 0 <= i < |rows| && 0 <= c < |columns| && rows[i][c].Missing? ==>
      columns[c].kind.Other? || (columns[c].kind.Numeric? && |Values(ColumnOf(rows, c))| == 0)
  }

  /** Imputation completeness: after cleaning, every fillable cell is filled. */
  lemma CleanSettled(f: Frame)
    requires f.Valid()
    ensures Settled(f.columns, Clean(f).rows)
  {
  }

  /** Filling a settled frame changes nothing. */
  lemma ImputeSettled(columns: seq<Column>, rows: seq<Row>)
    requires Settled(columns, rows)
    ensures Impute(columns, rows) == rows
  {
    var fills := Fills(columns, rows);
    forall i | 0 <= i < |rows|
      ensures FillRow(rows[i], fills) == rows[i]
    {
      forall c | 0 <= c < |columns|
        ensures FillCell(rows[i][c], fills[c]) == rows[i][c]
      {
        if rows[i][c].Missing? && columns[c].kind.Numeric? {
          assert Mean(ColumnOf(rows, c)).None?;
        }
      }
    }
  }

  /** Rows taken from a settled frame form a settled frame. */
  lemma SettledSubset(columns: seq<Column>, rows: seq<Row>, sub: seq<Row>)
    requires Settled(columns, rows)
    requires forall x :: x in sub ==> x in rows
    ensures Settled(columns, sub)
  {
    RectangularSubset(rows, sub, |columns|);
    forall i, c | 0 <= i < |sub| && 0 <= c < |columns| && sub[i][c].Missing?
      ensures columns[c].kind.Other? || (columns[c].kind.Numeric? && |Values(ColumnOf(sub, c))| == 0)
    {
      assert sub[i] in rows;
      var i' :| 0 <= i' < |rows| && rows[i'] == sub[i];
      assert rows[i'][c].Missing?;
      if columns[c].kind.Numeric? {
        NumbersOfSubset(rows, sub, c);
      }
    }
  }

  /** A column of rows taken from `rows` holds a number only if the same column of `rows` does. */
  lemma NumbersOfSubset(rows: seq<Row>, sub: seq<Row>, c: nat)
    requires forall i :: 0 <= i < |rows| ==> c < |rows[i]|
    requires forall x :: x in sub ==> x in rows
    requires |Values(ColumnOf(rows, c))| == 0
    ensures forall i :: 0 <= i < |sub| ==> c < |sub[i]|
    ensures |Values(ColumnOf(sub, c))| == 0
  {
    forall k | 0 <= k < |sub|
      ensures c < |sub[k]| && !sub[k][c].Num?
    {
      assert sub[k] in rows;
      var k' :| 0 <= k' < |rows| && rows[k'] == sub[k];
      assert !ColumnOf(rows, c)[k'].Num?;
    }
  }

  /**
   * Cleaning is idempotent exactly when its output has no duplicate rows (or
   * the frame has no columns): deduplication is then a no-op and nothing is
   * left to fill; otherwise a second run drops a row.
   */
  lemma CleanIdempotence(f: Frame)
    requires f.Valid()
    ensures Clean(Clean(f)) == Clean(f) <==> |f.columns| == 0 || NoDuplicates(Clean(f).rows)
  {
    var g := Clean(f);
    CleanShape(g);
    if |f.columns| == 0 || NoDuplicates(g.rows) {
      if |f.columns| > 0 {
        DropDuplicatesOfDistinct(g.rows);
      }
      CleanSettled(f);
      ImputeSettled(g.columns, g.rows);
    }
  }

  /** A frame with rows but no columns keeps all of its rows. */
  lemma CleanNoColumns()
    ensures Clean(Frame([], [[], []])).rows == [[], []]
  {
    CleanShape(Frame([], [[], []]));
  }

  /** The mean of a column holding 2, 4, a missing cell and 6 is 4. */
  lemma MeanExample()
    ensures Mean([Num(2.0), Num(4.0), Missing, Num(6.0)]) == Some(4.0)
  {
  }

  /** So the numeric fill turns that missing cell into 4 and leaves the others alone. */
  lemma MeanFillExample()
    ensures Fillna([Num(2.0), Num(4.0), Missing, Num(6.0)], MeanFill([Num(2.0), Num(4.0), Missing, Num(6.0)]))
      == [Num(2.0), Num(4.0), Num(4.0), Num(6.0)]
  {
    MeanExample();
  }

  /**
   * A small survey: numeric column A, text column B, and the rows
   * (1, "x"), (1, "x"), (missing, "y"), (3, missing).
   */
  function Survey(): Frame
  {
    Frame([Column("A", Numeric), Column("B", Text)],
          [[Num(1.0), Str("x")], [Num(1.0), Str("x")], [Missing, Str("y")], [Num(3.0), Missing]])
  }

  /** Deduplicating the survey drops the second (1, "x"). */
  lemma SurveyDeduped()
    ensures Survey().Valid()
    ensures Deduped(Survey()) == [[Num(1.0), Str("x")], [Missing, Str("y")], [Num(3.0), Missing]]
  {
    var r1, r3, r4 := [Num(1.0), Str("x")], [Missing, Str("y")], [Num(3.0), Missing];
    assert r3 != r1 by {
      assert r3[0] != r1[0];
    }
    assert r4 != r1 && r4 != r3 by {
      assert r4[0] != r1[0] && r4[0] != r3[0];
    }
    DropDuplicatesSkipsRepeat([r1], r1, [r3, r4]);
    assert [r1] + [r1] + [r3, r4] == Survey().rows;
    assert [r1] + [r3, r4] == [r1, r3, r4];
    DropDuplicatesOfDistinct([r1, r3, r4]);
  }

  /** Column A is filled with the mean of 1 and 3, column B with "Unknown". */
  lemma SurveyFills()
    ensures Fills(Survey().columns, Deduped(Survey())) == [Num(2.0), Str(Unknown)]
  {
    SurveyDeduped();
    var d := Deduped(Survey());
    var a := ColumnOf(d, 0);
    assert a == [Num(1.0), Missing, Num(3.0)];
    assert Values(a[2..]) == [3.0];
    assert Values(a) == [1.0, 3.0];
    assert Sum([1.0, 3.0]) == 4.0 by {
      assert [1.0, 3.0][1..] == [3.0];
    }
    MeanFromSum(a, 2.0);
  }

  /** The survey cleans to three rows: (1, "x"), (2, "y"), (3, "Unknown"). */
  lemma CleanSurvey()
    ensures Clean(Survey()).rows == [[Num(1.0), Str("x")], [Num(2.0), Str("y")], [Num(3.0), Str(Unknown)]]
  {
    SurveyDeduped();
    SurveyFills();
    var fills := [Num(2.0), Str(Unknown)];
    var out := Clean(Survey()).rows;
    assert out[0] == [Num(1.0), Str("x")] by {
      assert FillRow([Num(1.0), Str("x")], fills) == [Num(1.0), Str("x")];
    }
    assert out[1] == [Num(2.0), Str("y")] by {
      assert FillRow([Missing, Str("y")], fills) == [Num(2.0), Str("y")];
    }
    assert out[2] == [Num(3.0), Str(Unknown)] by {
      assert FillRow([Num(3.0), Missing], fills) == [Num(3.0), Str(Unknown)];
    }
  }

  /** A frame with one text column: a missing city and a city recorded as "Unknown". */
  function TwoCities(): Frame
  {
    Frame([Column("city", Text)], [[Missing], [Str(Unknown)]])
  }

  /** Cleaning `TwoCities()` fills the missing city, which makes its two distinct rows equal. */
  lemma CleanTwoCities()
    ensures TwoCities().Valid() && NoDuplicates(TwoCities().rows)
    ensures Clean(TwoCities()).rows == [[Str(Unknown)], [Str(Unknown)]]
  {
    var u := Str(Unknown);
    var f := TwoCities();
    assert [Missing] != [u] by {
      assert [Missing][0] != [u][0];
    }
    DropDuplicatesOfDistinct(f.rows);
    var fills := Fills(f.columns, f.rows);
    assert fills[0] == u;
    var g := Clean(f);
    assert g.rows[0] == [u] by {
      assert g.rows[0][0] == u;
    }
    assert g.rows[1] == [u] by {
      assert g.rows[1][0] == u;
    }
  }

  /**
   * As written, the script removes duplicates before filling, so filling can
   * make two distinct rows equal: a missing text cell and an "Unknown" one.
   * The output then has duplicate rows and a second run changes it.
   */
  lemma CleanCanLeaveDuplicates()
    ensures NoDuplicates(TwoCities().rows)
    ensures !NoDuplicates(Clean(TwoCities()).rows)
    ensures Clean(Clean(TwoCities())).rows == [[Str(Unknown)]]
  {
    CleanTwoCities();
    var g := Clean(TwoCities());
    var once := [[Str(Unknown)]];
    assert DropDuplicates(g.rows) == once by {
      assert g.rows[..1] == once;
      DropDuplicatesOfDistinct(once);
    }
    assert Settled(g.columns, once);
    ImputeSettled(g.columns, once);
  }

  /**
   * The evident intent, a frame without duplicate rows, is met by removing
   * duplicates once more after filling. The result keeps the columns, holds
   * every input row once filled, has no duplicate rows (unless it has no
   * columns, which pandas never deduplicates), and leaves no fillable cell
   * missing.
   */
  function CleanDistinct(f: Frame): (g: Frame)
    requires f.Valid()
    ensures g.columns == f.columns && g.Valid()
    ensures |f.columns| > 0 ==> NoDuplicates(g.rows)
    ensures |g.rows| <= |f.rows|
    ensures forall i :: 0 <= i < |f.rows| ==> FillRow(f.rows[i], Fills(f.columns, Deduped(f))) in g.rows
    ensures Settled(g.columns, g.rows)
  {
    var c := Clean(f);
    CleanRows(f);
    CleanShape(f);
    CleanSettled(f);
    SettledSubset(c.columns, c.rows, Deduped(c));
    Frame(c.columns, Deduped(c))
  }

  /** `clean_data` followed by a second `drop_duplicates()`. */
  method CleanDataDistinct(f: Frame) returns (g: Frame)
    requires f.Valid()
    ensures g == CleanDistinct(f)
  {
    g := CleanData(f);
    g := Frame(g.columns, Deduped(g));
  }

  /** The corrected cleaning is idempotent. */
  lemma CleanDistinctIdempotent(f: Frame)
    requires f.Valid()
    ensures CleanDistinct(CleanDistinct(f)) == CleanDistinct(f)
  {
    var g := CleanDistinct(f);
    if |f.columns| > 0 {
      DropDuplicatesOfDistinct(g.rows);
    }
    ImputeSettled(g.columns, g.rows);
    assert Clean(g) == g;
  }

  /** The correction changes the script's result exactly when that result has duplicate rows. */
  lemma CleanDistinctAgrees(f: Frame)
    requires f.Valid()
    ensures CleanDistinct(f) == Clean(f) <==> |f.columns| == 0 || NoDuplicates(Clean(f).rows)
  {
    if |f.columns| > 0 {
      CleanShape(Clean(f));
      if NoDuplicates(Clean(f).rows) {
        DropDuplicatesOfDistinct(Clean(f).rows);
      }
    }
  }
}
