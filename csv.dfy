/**
 * The CSV readers `read_cole_cole_csv` and `read_standard_plot_csv`
 * (thermal_local/services/sync.py). Reading and tokenising the file is left
 * to pandas; the readers start from the header row and the data rows pandas
 * produced, normalise the header names, check the required columns and
 * select them in their canonical order.
 */
module CsvReaders {
  import opened Wrappers
  import opened Text

  /** A pandas DataFrame: column labels and rows of cells. */
  datatype Frame<T> = Frame(columns: seq<string>, rows: seq<seq<T>>)

  /** Every row has one cell per column, as in any DataFrame. */
  predicate Rectangular<T>(f: Frame<T>)
  {
    forall k | 0 <= k < |f.rows| :: |f.rows[k]| == |f.columns|
  }

  /** The reader's error: `ValueError` naming the set of missing columns. */
  datatype CsvError = MissingColumns(missing: set<string>)

  const ColeColeColumns: seq<string> := ["frequency", "resistance", "reactance", "capacitance"]
  const StandardPlotColumns: seq<string> := ["time", "voltage"]

  /** `c.strip().lower()`. */
  function NormalizeHeader(c: string): string
  {
    Lower(Strip(c))
  }

  /** `[c.strip().lower() for c in df.columns]`. */
  function NormalizeHeaders(cs: seq<string>): (r: seq<string>)
    ensures |r| == |cs|
    ensures forall i | 0 <= i < |cs| :: r[i] == NormalizeHeader(cs[i])
  {
    seq(|cs|, i requires 0 <= i < |cs| => NormalizeHeader(cs[i]))
  }

  /** The positions, from `from` on and in ascending order, where `h` holds the label `c`. */
  function Positions(h: seq<string>, c: string, from: nat): (r: seq<nat>)
    requires from <= |h|
    ensures forall p | 0 <= p < |r| :: from <= r[p] < |h| && h[r[p]] == c
    ensures (forall i | from <= i < |h| :: h[i] != c) <==> r == []
    decreases |h| - from
  {
    if from == |h| then []
    else (if h[from] == c then [from] else []) + Positions(h, c, from + 1)
  }

  /** The first position of `c` in `h`. */
  function IndexOf(h: seq<string>, c: string): (k: nat)
    requires c in h
    ensures k < |h| && h[k] == c
    ensures forall i | 0 <= i < k :: h[i] != c
    decreases |h|
  {
    if h[0] == c then 0 else 1 + IndexOf(h[1..], c)
  }

  /** Where `c` occurs exactly once, its positions are just that one. */
  lemma {:induction false} PositionsOfUnique(h: seq<string>, c: string, from: nat)
    requires c in h && Distinct(h) && from <= IndexOf(h, c)
    ensures Positions(h, c, from) == [IndexOf(h, c)]
    decreases |h| - from
  {
    if from < IndexOf(h, c) {
      PositionsOfUnique(h, c, from + 1);
    } else {
      assert Positions(h, c, from + 1) == [];
    }
  }

  /**
   * The column positions `df[required]` selects: for each required label in
   * turn, every column carrying it (pandas selects by label, so a label that
   * occurs twice after normalisation is selected twice).
   */
  function Selection(h: seq<string>, required: seq<string>): (r: seq<nat>)
    ensures forall p | 0 <= p < |r| :: r[p] < |h| && h[r[p]] in required
    decreases |required|
  {
    if required == [] then [] else Positions(h, required[0], 0) + Selection(h, required[1..])
  }

  /** With distinct labels, the selection is the required columns' positions in canonical order. */
  lemma {:induction false} SelectionOfDistinct(h: seq<string>, required: seq<string>)
    requires Distinct(h)
    requires forall j | 0 <= j < |required| :: required[j] in h
    ensures |Selection(h, required)| == |required|
    ensures forall j | 0 <= j < |required| :: Selection(h, required)[j] == IndexOf(h, required[j])
    decreases |required|
  {
    if required != [] {
      PositionsOfUnique(h, required[0], 0);
      SelectionOfDistinct(h, required[1..]);
    }
  }

  function SelectCells<T>(row: seq<T>, sel: seq<nat>): (r: seq<T>)
    requires forall p | 0 <= p < |sel| :: sel[p] < |row|
    ensures |r| == |sel|
    ensures forall p | 0 <= p < |sel| :: r[p] == row[sel[p]]
  {
    seq(|sel|, p requires 0 <= p < |sel| => row[sel[p]])
  }

  /**
   * The check and projection on the normalised labels `h`: fail naming
   * exactly the required labels that are absent, otherwise select the
   * required columns in canonical order, keeping every row.
   */
  function Select<T>(required: seq<string>, h: seq<string>, rows: seq<seq<T>>): (r: Result<Frame<T>, CsvError>)
    requires forall k | 0 <= k < |rows| :: |rows[k]| == |h|
    ensures r.Err? <==> exists j | 0 <= j < |required| :: required[j] !in h
    ensures r.Err? ==> r.error.missing == (set c | c in required) - (set c | c in h)
    ensures r.Ok? ==> Rectangular(r.value) && |r.value.rows| == |rows|
    ensures r.Ok? ==> forall j | 0 <= j < |r.value.columns| :: r.value.columns[j] in required
  {
    var present := set c | c in h;
    var req := set c | c in required;
    if !(req <= present) then
      Err(MissingColumns(req - present))
    else
      assert forall j | 0 <= j < |required| :: required[j] in req;
      var sel := Selection(h, required);
      Ok(Frame(seq(|sel|, p requires 0 <= p < |sel| => h[sel[p]]),
               seq(|rows|, k requires 0 <= k < |rows| => SelectCells(rows[k], sel))))
  }

  /** The shared body of both readers: normalise the labels, then check and select. */
  function ReadWith<T>(required: seq<string>, df: Frame<T>): (r: Result<Frame<T>, CsvError>)
    requires Rectangular(df)
  {
    Select(required, NormalizeHeaders(df.columns), df.rows)
  }

  /** `read_cole_cole_csv` after `pd.read_csv`. */
  function ReadColeColeCsv<T>(df: Frame<T>): (r: Result<Frame<T>, CsvError>)
    requires Rectangular(df)
    ensures var h := NormalizeHeaders(df.columns);
            r.Err? <==> exists j | 0 <= j < |ColeColeColumns| :: ColeColeColumns[j] !in h
    ensures r.Err? ==> r.error.missing == (set c | c in ColeColeColumns) - (set c | c in NormalizeHeaders(df.columns))
    ensures r.Ok? ==> |r.value.rows| == |df.rows|
  {
    ReadWith(ColeColeColumns, df)
  }

  /** `read_standard_plot_csv` after `pd.read_csv`. */
  function ReadStandardPlotCsv<T>(df: Frame<T>): (r: Result<Frame<T>, CsvError>)
    requires Rectangular(df)
    ensures var h := NormalizeHeaders(df.columns);
            r.Err? <==> exists j | 0 <= j < |StandardPlotColumns| :: StandardPlotColumns[j] !in h
    ensures r.Err? ==> r.error.missing == (set c | c in StandardPlotColumns) - (set c | c in NormalizeHeaders(df.columns))
    ensures r.Ok? ==> |r.value.rows| == |df.rows|
  {
    ReadWith(StandardPlotColumns, df)
  }

  /** The rows `df[required]` holds when every required label occurs exactly once. */
  function CanonicalRows<T>(required: seq<string>, h: seq<string>, rows: seq<seq<T>>): (r: seq<seq<T>>)
    requires forall k | 0 <= k < |rows| :: |rows[k]| == |h|
    requires forall j | 0 <= j < |required| :: required[j] in h
    ensures |r| == |rows|
    ensures forall k | 0 <= k < |r| :: |r[k]| == |required|
  {
    seq(|rows|, k requires 0 <= k < |rows| =>
      seq(|required|, j requires 0 <= j < |required| => rows[k][IndexOf(h, required[j])]))
  }

  /**
   * When the normalised labels are distinct and all required ones are there,
   * the result has exactly the required columns in canonical order, and cell
   * `j` of row `k` is the input's cell under the label `required[j]`.
   */
  lemma SelectDistinct<T>(required: seq<string>, h: seq<string>, rows: seq<seq<T>>)
    requires forall k | 0 <= k < |rows| :: |rows[k]| == |h|
    requires Distinct(h)
    requires forall j | 0 <= j < |required| :: required[j] in h
    ensures Select(required, h, rows) == Ok(Frame(required, CanonicalRows(required, h, rows)))
  {
    SelectionOfDistinct(h, required);
    assert (set c | c in required) <= (set c | c in h);
    var sel := Selection(h, required);
    var cols := seq(|sel|, p requires 0 <= p < |sel| => h[sel[p]]);
    assert cols == required by {
      forall p | 0 <= p < |sel|
        ensures cols[p] == required[p]
      {
      }
    }
    var canon := CanonicalRows(required, h, rows);
    var out := seq(|rows|, k requires 0 <= k < |rows| => SelectCells(rows[k], sel));
    assert out == canon by {
      forall k | 0 <= k < |rows|
        ensures out[k] == canon[k]
      {
        forall j | 0 <= j < |required|
          ensures out[k][j] == canon[k][j]
        {
        }
      }
    }
    assert Select(required, h, rows) == Ok(Frame(cols, out));
  }

  /** The same for a reader's whole input: exactly the required columns, in canonical order. */
  lemma ReadWithDistinct<T>(required: seq<string>, df: Frame<T>)
    requires Rectangular(df)
    requires Distinct(NormalizeHeaders(df.columns))
    requires forall j | 0 <= j < |required| :: required[j] in NormalizeHeaders(df.columns)
    ensures ReadWith(required, df) == Ok(Frame(required, CanonicalRows(required, NormalizeHeaders(df.columns), df.rows)))
  {
    SelectDistinct(required, NormalizeHeaders(df.columns), df.rows);
  }

  /**
   * The result depends only on the required columns' contents: two inputs
   * whose columns come in any order, with any extra columns, read to the
   * same frame when each required column holds the same cells in both.
   */
  lemma {:induction false} SelectIgnoresOrderAndExtras<T>(required: seq<string>,
                                                         h1: seq<string>, rows1: seq<seq<T>>,
                                                         h2: seq<string>, rows2: seq<seq<T>>)
    requires forall k | 0 <= k < |rows1| :: |rows1[k]| == |h1|
    requires forall k | 0 <= k < |rows2| :: |rows2[k]| == |h2|
    requires Distinct(h1) && Distinct(h2)
    requires forall j | 0 <= j < |required| :: required[j] in h1 && required[j] in h2
    requires |rows1| == |rows2|
    requires forall k, j | 0 <= k < |rows1| && 0 <= j < |required| ::
               rows1[k][IndexOf(h1, required[j])] == rows2[k][IndexOf(h2, required[j])]
    ensures Select(required, h1, rows1) == Select(required, h2, rows2)
  {
    SelectDistinct(required, h1, rows1);
    SelectDistinct(required, h2, rows2);
    var c1, c2 := CanonicalRows(required, h1, rows1), CanonicalRows(required, h2, rows2);
    forall k | 0 <= k < |c1|
      ensures c1[k] == c2[k]
    {
    }
    assert c1 == c2;
  }

  /** Header normalisation makes the readers blind to case and surrounding whitespace. */
  lemma {:induction false} ReadIgnoresHeaderSpelling<T>(required: seq<string>, df: Frame<T>, columns: seq<string>)
    requires Rectangular(df) && |columns| == |df.columns|
    requires forall i | 0 <= i < |columns| :: NormalizeHeader(columns[i]) == NormalizeHeader(df.columns[i])
    ensures ReadWith(required, Frame(columns, df.rows)) == ReadWith(required, df)
  {
    assert NormalizeHeaders(columns) == NormalizeHeaders(df.columns);
  }

  lemma ColeColeRequired()
    ensures (set c | c in ColeColeColumns) == {"frequency", "resistance", "reactance", "capacitance"}
  {
  }

  /** Both readers name exactly the missing columns; a frame with none of them misses them all. */
  lemma ColeColeMissingAll<T>(df: Frame<T>)
    requires Rectangular(df)
    requires forall i | 0 <= i < |df.columns| :: NormalizeHeader(df.columns[i]) !in ColeColeColumns
    ensures ReadColeColeCsv(df) == Err(MissingColumns({"frequency", "resistance", "reactance", "capacitance"}))
  {
    var h := NormalizeHeaders(df.columns);
    var r := ReadColeColeCsv(df);
    assert ColeColeColumns[0] !in h;
    assert r.Err?;
    var req := set c | c in ColeColeColumns;
    var present := set c | c in h;
    assert r.error.missing == req - present;
    assert present !! req by {
      forall c | c in present
        ensures c !in req
      {
        var i :| 0 <= i < |h| && h[i] == c;
      }
    }
    assert req - present == req;
    ColeColeRequired();
  }
}
