/** The example payload `prepare_report` writes into the training report:
    a 2-D array rendered as `[[a, b], \n[c, d]]`, built in a buffer by a
    nested loop that appends each cell with a trailing `, ` and trims the
    last separator of each row, and of the whole array, by slicing. The rest
    of the report (the template and `json.dumps`) is not part of this model. */
module ExampleReport {
  import opened PyText

  /** A cell of the example array: a Python `str`, or any other value,
      which goes through `str()`; that rendering is the parameter `render`. */
  datatype Cell<V> = Text(s: string) | Value(v: V)

  /** The text appended for one cell: a string between single quotes, so
      that stripping the quotes gives it back; any other value rendered. */
  function CellText<V>(c: Cell<V>, render: V -> string): (r: string)
    ensures c.Text? ==> |r| == |c.s| + 2 && r[0] == '\'' && r[|r| - 1] == '\'' && r[1..|r| - 1] == c.s
    ensures c.Value? ==> r == render(c.v)
  {
    match c
    case Text(s) => "'" + s + "'"
    case Value(v) => render(v)
  }

  function CellTexts<V>(row: seq<Cell<V>>, render: V -> string): (texts: seq<string>)
    ensures |texts| == |row|
  {
    seq(|row|, i requires 0 <= i < |row| => CellText(row[i], render))
  }

  /** Each item followed by `sep`, concatenated. */
  function Terminated(xs: seq<string>, sep: string): string
  {
    if |xs| == 0 then "" else Terminated(xs[..|xs| - 1], sep) + xs[|xs| - 1] + sep
  }

  /** The items with `sep` between them (Python `sep.join(xs)`). */
  function SepJoin(xs: seq<string>, sep: string): string
  {
    if |xs| == 0 then ""
    else if |xs| == 1 then xs[0]
    else SepJoin(xs[..|xs| - 1], sep) + sep + xs[|xs| - 1]
  }

  /** `[c1, c2, ...]` for one row. */
  function RowLiteral<V>(row: seq<Cell<V>>, render: V -> string): string
  {
    "[" + SepJoin(CellTexts(row, render), ", ") + "]"
  }

  function RowLiterals<V>(data: seq<seq<Cell<V>>>, render: V -> string): (lits: seq<string>)
    ensures |lits| == |data|
  {
    seq(|data|, i requires 0 <= i < |data| => RowLiteral(data[i], render))
  }

  /** The intended payload: the row literals between `[` and `]`,
      separated by `, ` and a newline. */
  function ArrayLiteral<V>(data: seq<seq<Cell<V>>>, render: V -> string): string
  {
    "[" + SepJoin(RowLiterals(data, render), ", \n") + "]"
  }

  predicate RowsNonEmpty<V>(data: seq<seq<Cell<V>>>)
  {
    forall i :: 0 <= i < |data| ==> |data[i]| > 0
  }

  /** The buffer after the outer loop has handled `data`, for any data:
      each row appends `[`, its cells each followed by `, `, then drops the
      last two characters and appends `], \n`. */
  function BufferAfterRows<V>(data: seq<seq<Cell<V>>>, render: V -> string): string
  {
    if |data| == 0 then "["
    else
      var row := data[|data| - 1];
      DropLast(BufferAfterRows(data[..|data| - 1], render) + "[" + Terminated(CellTexts(row, render), ", "), 2) + "], \n"
  }

  /** The finished buffer: the last three characters dropped and `]` appended. */
  function ExampleBuffer<V>(data: seq<seq<Cell<V>>>, render: V -> string): string
  {
    DropLast(BufferAfterRows(data, render), 3) + "]"
  }

  /** The inner loop of `prepare_report`: each cell of a row, quoted when it
      is a string and rendered otherwise, followed by `, `. */
  method AppendCells<V>(row: seq<Cell<V>>, render: V -> string) returns (buf: string)
    ensures buf == Terminated(CellTexts(row, render), ", ")
    ensures |row| > 0 ==> buf == SepJoin(CellTexts(row, render), ", ") + ", "
  {
    buf := "";
    var j := 0;
    while j < |row|
      invariant 0 <= j <= |row|
      invariant buf == Terminated(CellTexts(row[..j], render), ", ")
    {
      ghost var cellsBefore := buf;
      match row[j] {
        case Text(s) =>
          buf := buf + "'" + s + "'" + ", ";
        case Value(v) =>
          buf := buf + render(v) + ", ";
      }
      assert buf == cellsBefore + CellText(row[j], render) + ", ";
      CellStep(row, j, render);
      j := j + 1;
    }
    assert row[..j] == row;
    if |row| > 0 {
      TerminatedIsJoin(CellTexts(row, render), ", ");
    }
  }

  /** The outer loop of `prepare_report` that fills `buffer_example_data`. */
  method PrepareExampleBuffer<V>(data: seq<seq<Cell<V>>>, render: V -> string) returns (buf: string)
    ensures buf == ExampleBuffer(data, render)
    ensures |data| > 0 && RowsNonEmpty(data) ==> buf == ArrayLiteral(data, render)
    ensures |data| == 0 ==> buf == "]"
  {
    buf := "[";
    var i := 0;
    while i < |data|
      invariant 0 <= i <= |data|
      invariant buf == BufferAfterRows(data[..i], render)
    {
      var row := data[i];
      buf := buf + "[";
      var cells := AppendCells(row, render);
      buf := buf + cells;
      buf := DropLast(buf, 2) + "], \n";
      RowsStep(data, i, render);
      i := i + 1;
    }
    assert data[..i] == data;
    buf := DropLast(buf, 3) + "]";
    if |data| > 0 && RowsNonEmpty(data) {
      ExampleBufferIsArrayLiteral(data, render);
    }
  }

  lemma CellStep<V>(row: seq<Cell<V>>, j: nat, render: V -> string)
    requires j < |row|
    ensures Terminated(CellTexts(row[..j + 1], render), ", ")
         == Terminated(CellTexts(row[..j], render), ", ") + CellText(row[j], render) + ", "
  {
    assert CellTexts(row[..j + 1], render)[..j] == CellTexts(row[..j], render);
  }

  lemma RowsStep<V>(data: seq<seq<Cell<V>>>, i: nat, render: V -> string)
    requires i < |data|
    ensures BufferAfterRows(data[..i + 1], render)
         == DropLast(BufferAfterRows(data[..i], render) + "[" + Terminated(CellTexts(data[i], render), ", "), 2) + "], \n"
  {
    assert data[..i + 1][..i] == data[..i];
  }

  /** A non-empty list ended by separators is its join plus one separator. */
  lemma {:induction false} TerminatedIsJoin(xs: seq<string>, sep: string)
    requires |xs| > 0
    ensures Terminated(xs, sep) == SepJoin(xs, sep) + sep
    decreases |xs|
  {
    if |xs| > 1 {
      TerminatedIsJoin(xs[..|xs| - 1], sep);
    }
  }

  /** Trimming a non-empty row's trailing `, ` and closing it leaves the
      row literal followed by the row separator. */
  lemma RowStep<V>(before: string, row: seq<Cell<V>>, render: V -> string)
    requires |row| > 0
    ensures DropLast(before + "[" + Terminated(CellTexts(row, render), ", "), 2) + "], \n"
         == before + RowLiteral(row, render) + ", \n"
  {
    var joined := SepJoin(CellTexts(row, render), ", ");
    TerminatedIsJoin(CellTexts(row, render), ", ");
    var s := before + "[" + joined + ", ";
    assert DropLast(s, 2) == before + "[" + joined;
  }

  /** With no empty row, the buffer after the outer loop holds `[` and then
      every row literal followed by `, \n`. */
  lemma {:induction false} BufferWellShaped<V>(data: seq<seq<Cell<V>>>, render: V -> string)
    requires RowsNonEmpty(data)
    ensures BufferAfterRows(data, render) == "[" + Terminated(RowLiterals(data, render), ", \n")
    decreases |data|
  {
    if |data| > 0 {
      var init := data[..|data| - 1];
      var row := data[|data| - 1];
      InitRows(data, render);
      BufferWellShaped(init, render);
      var prev := Terminated(RowLiterals(init, render), ", \n");
      var lit := RowLiteral(row, render);
      RowStep("[" + prev, row, render);
      assert BufferAfterRows(data, render) == "[" + prev + lit + ", \n";
      SeqRegroup("[", prev, lit, ", \n");
    }
  }

  /** Dropping the last row keeps the other rows and their literals. */
  lemma InitRows<V>(data: seq<seq<Cell<V>>>, render: V -> string)
    requires |data| > 0 && RowsNonEmpty(data)
    ensures var init := data[..|data| - 1];
      && RowsNonEmpty(init)
      && Terminated(RowLiterals(data, render), ", \n")
         == Terminated(RowLiterals(init, render), ", \n") + RowLiteral(data[|data| - 1], render) + ", \n"
  {
    var init := data[..|data| - 1];
    forall i | 0 <= i < |init| ensures |init[i]| > 0 {
      assert init[i] == data[i];
    }
    assert RowLiterals(data, render)[..|data| - 1] == RowLiterals(init, render);
  }

  /** For non-empty data with non-empty rows, the buffer is the array
      literal: `[` + rows joined by `, \n` + `]`, each row `[` + cells
      joined by `, ` + `]`. */
  lemma ExampleBufferIsArrayLiteral<V>(data: seq<seq<Cell<V>>>, render: V -> string)
    requires |data| > 0 && RowsNonEmpty(data)
    ensures ExampleBuffer(data, render) == ArrayLiteral(data, render)
  {
    var lits := RowLiterals(data, render);
    BufferWellShaped(data, render);
    TerminatedIsJoin(lits, ", \n");
    var s := "[" + SepJoin(lits, ", \n") + ", \n";
    assert DropLast(s, 3) == "[" + SepJoin(lits, ", \n");
  }

  /** A row's cells appear in its literal in order: the first cell right
      after the opening `[`, the last right before the closing `]`. */
  lemma {:induction false} SepJoinEnds(xs: seq<string>, sep: string)
    requires |xs| > 0
    ensures StartsWith(SepJoin(xs, sep), xs[0])
    ensures |xs[|xs| - 1]| <= |SepJoin(xs, sep)|
    ensures var j := SepJoin(xs, sep); j[|j| - |xs[|xs| - 1]|..] == xs[|xs| - 1]
    decreases |xs|
  {
    if |xs| > 1 {
      var init := xs[..|xs| - 1];
      SepJoinEnds(init, sep);
      var j := SepJoin(xs, sep);
      assert j == SepJoin(init, sep) + sep + xs[|xs| - 1];
      assert j[..|xs[0]|] == SepJoin(init, sep)[..|xs[0]|];
    }
  }

  /** The payload of non-empty data with non-empty rows opens with `[[`
      and closes with `]]`. */
  lemma ExampleBufferBrackets<V>(data: seq<seq<Cell<V>>>, render: V -> string)
    requires |data| > 0 && RowsNonEmpty(data)
    ensures var b := ExampleBuffer(data, render);
      |b| >= 4 && b[..2] == "[[" && b[|b| - 2..] == "]]"
  {
    ExampleBufferIsArrayLiteral(data, render);
    var lits := RowLiterals(data, render);
    var j := SepJoin(lits, ", \n");
    assert j[0] == '[' && j[|j| - 1] == ']' by {
      SepJoinEnds(lits, ", \n");
      var first := lits[0];
      var last := lits[|lits| - 1];
      assert first[0] == '[';
      assert last[|last| - 1] == ']';
    }
    Bracketed(j);
  }

  lemma Bracketed(j: string)
    requires |j| > 0 && j[0] == '[' && j[|j| - 1] == ']'
    ensures var b := "[" + j + "]";
      |b| >= 4 && b[..2] == "[[" && b[|b| - 2..] == "]]"
  {
  }

  /** Without data, the slicing leaves only the closing bracket: `]`. */
  lemma EmptyDataGivesBracket<V>(render: V -> string)
    ensures ExampleBuffer([], render) == "]"
  {
  }

  /** A single empty row eats the opening brackets: `[[]]` comes out as `]]`. */
  lemma EmptyRowGivesBrackets<V>(render: V -> string)
    ensures ExampleBuffer([[]], render) == "]]"
  {
    var data: seq<seq<Cell<V>>> := [[]];
    assert data[..0] == [];
    assert CellTexts(data[0], render) == [];
    assert BufferAfterRows(data, render) == "], \n";
  }
}
