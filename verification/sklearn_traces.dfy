/**
 * `load_traces` of the scikit-learn sandbox, after the CSV reader has split the
 * file into a header row and rows of cell texts: list-valued cells are decoded
 * with `int`, and each cell is appended to the list of its column.
 */
module SklearnTraces {
  import opened Sdr

  // ---------------------------------------------------------------------------
  // Decoding the cells of one row

  /** A decoded trace cell: a list of cell indices, or the text of a numeric cell. */
  datatype TraceValue = IntList(ints: seq<int>) | NumberText(text: string)

  /** The columns whose cells hold lists of cell indices. */
  predicate IsListColumn(header: string) {
    header == "tmPredictedActiveCells" || header == "tpActiveCells" || header == "tmActiveCells"
  }

  /** Python's whitespace: space, and tab through carriage return. */
  predicate IsSpace(c: char) { c == ' ' || '\t' <= c <= '\r' }

  predicate IsDigit(c: char) { '0' <= c <= '9' }

  predicate AllDigits(s: string) {
    s == [] || (AllDigits(s[..|s| - 1]) && IsDigit(s[|s| - 1]))
  }

  function StripLeft(s: string): (r: string)
    ensures r == [] || !IsSpace(r[0])
  {
    if s != [] && IsSpace(s[0]) then StripLeft(s[1..]) else s
  }

  function StripRight(s: string): (r: string)
    ensures r == [] || !IsSpace(r[|r| - 1])
  {
    if s != [] && IsSpace(s[|s| - 1]) then StripRight(s[..|s| - 1]) else s
  }

  /** The value of a string of decimal digits. */
  function DigitsValue(s: string): nat
    requires AllDigits(s)
  {
    if s == [] then 0 else DigitsValue(s[..|s| - 1]) * 10 + (s[|s| - 1] as int - '0' as int)
  }

  /**
   * `int(s)` on a string: surrounding whitespace is ignored, then an optional
   * sign and at least one decimal digit; anything else raises ValueError.
   */
  function ParseInt(s: string): (r: Result<int>)
    ensures r.Err? ==> r.error == ValueError
  {
    ParseToken(StripRight(StripLeft(s)))
  }

  /** An optional sign followed by at least one decimal digit. */
  function ParseToken(t: string): (r: Result<int>)
    ensures r.Err? ==> r.error == ValueError
  {
    var signed := t != [] && (t[0] == '-' || t[0] == '+');
    var body := if signed then t[1..] else t;
    if body == [] || !AllDigits(body) then Err(ValueError)
    else if signed && t[0] == '-' then Ok(0 - DigitsValue(body))
    else Ok(DigitsValue(body))
  }

  /** The position of the first comma, or the length when there is none. */
  function FirstComma(s: string): (i: nat)
    ensures i <= |s| && (i < |s| ==> s[i] == ',')
  {
    if s == [] || s[0] == ',' then 0 else 1 + FirstComma(s[1..])
  }

  /** `s.split(',')`: the pieces between commas; a string without commas is one piece. */
  function Split(s: string): (r: seq<string>)
    ensures |r| >= 1
    decreases |s|
  {
    var i := FirstComma(s);
    if i == |s| then [s] else [s[..i]] + Split(s[i + 1..])
  }

  /** `map(int, pieces)`: the first piece `int` rejects raises. */
  function ParseAll(pieces: seq<string>): (r: Result<seq<int>>)
    ensures r.Err? ==> r.error == ValueError
    ensures r.Ok? ==> |r.value| == |pieces|
  {
    if pieces == [] then Ok([])
    else
      match ParseInt(pieces[0])
      case Err(e) => Err(e)
      case Ok(x) =>
        match ParseAll(pieces[1..])
        case Err(e) => Err(e)
        case Ok(xs) => Ok([x] + xs)
  }

  /** `row[i][1:-1]`: the text between the first and the last character. */
  function Inner(cell: string): string {
    if |cell| >= 2 then cell[1..|cell| - 1] else ""
  }

  /** `row[i][1:-1].split(',')`: the comma-separated pieces of a list cell. */
  function Pieces(cell: string): seq<string> {
    Split(Inner(cell))
  }

  /**
   * A non-empty cell of a list column: `'[]'` is the empty list; any other cell
   * decodes exactly when `int` accepts every piece, into one value per piece.
   */
  function DecodeListCell(cell: string): (r: Result<seq<int>>)
    ensures cell == "[]" ==> r == Ok([])
    ensures r.Err? ==> r.error == ValueError
    ensures cell != "[]" ==> (r.Ok? <==> forall k :: 0 <= k < |Pieces(cell)| ==> ParseInt(Pieces(cell)[k]).Ok?)
    ensures cell != "[]" && r.Ok? ==>
              |r.value| == |Pieces(cell)| &&
              forall k :: 0 <= k < |Pieces(cell)| ==> ParseInt(Pieces(cell)[k]) == Ok(r.value[k])
  {
    if cell == "[]" then Ok([])
    else
      ParseAllPieces(Pieces(cell));
      ParseAll(Pieces(cell))
  }

  /**
   * The value `load_traces` appends for one cell: an empty cell is the empty list
   * in every column; a list column decodes its list; other cells keep their text.
   */
  function DecodeCell(header: string, cell: string): (r: Result<TraceValue>)
    ensures cell == [] ==> r == Ok(IntList([]))
    ensures r.Err? ==> cell != [] && IsListColumn(header) && r.error == ValueError
  {
    if cell == [] then Ok(IntList([]))
    else if IsListColumn(header) then
      match DecodeListCell(cell)
      case Err(e) => Err(e)
      case Ok(xs) => Ok(IntList(xs))
    else Ok(NumberText(cell))
  }

  // ---------------------------------------------------------------------------
  // The written form of a list cell, and its round trip through the decoder

  function DigitChar(d: int): (c: char)
    requires 0 <= d < 10
    ensures IsDigit(c) && c as int - '0' as int == d
  {
    ('0' as int + d) as char
  }

  /** The decimal digits of `n`, most significant first. */
  function NatText(n: nat): string
  {
    if n < 10 then [DigitChar(n)] else NatText(n / 10) + [DigitChar(n % 10)]
  }

  /** The decimal text of `x`, with a leading '-' when negative. */
  function IntText(x: int): string {
    if x < 0 then "-" + NatText(-x) else NatText(x)
  }

  /** The items after the first one, each written as ", " and its text. */
  function MoreItems(ys: seq<int>): string {
    if ys == [] then "" else ", " + IntText(ys[0]) + MoreItems(ys[1..])
  }

  /** A list of integers as it is written into a trace cell: `[3, -1, 7]`. */
  function Render(xs: seq<int>): string {
    if xs == [] then "[]" else "[" + IntText(xs[0]) + MoreItems(xs[1..]) + "]"
  }

  /** The decimal text of `n` is digits only, it reads back as `n`, and it holds no comma. */
  lemma {:induction false} NatTextDigits(n: nat)
    ensures NatText(n) != [] && IsDigit(NatText(n)[0]) && IsDigit(NatText(n)[|NatText(n)| - 1])
    ensures AllDigits(NatText(n)) && DigitsValue(NatText(n)) == n
    ensures ',' !in NatText(n)
    decreases n
  {
    var t := NatText(n);
    if n >= 10 {
      NatTextDigits(n / 10);
      var front := NatText(n / 10);
      assert t == front + [DigitChar(n % 10)];
      assert t[..|t| - 1] == front;
      assert t[0] == front[0];
    } else {
      assert t[..|t| - 1] == [];
    }
  }

  /** The decimal text of `x` starts with '-' or a digit, ends with a digit and holds no comma. */
  lemma IntTextShape(x: int)
    ensures IntText(x) != [] && !IsSpace(IntText(x)[0]) && IsDigit(IntText(x)[|IntText(x)| - 1])
    ensures ',' !in IntText(x) && ',' !in " " + IntText(x)
  {
    var n: nat := if x < 0 then -x else x;
    NatTextDigits(n);
    var digits := NatText(n);
    if x < 0 {
      assert IntText(x) == "-" + digits;
    }
  }

  lemma ParseTokenText(x: int)
    ensures ParseToken(IntText(x)) == Ok(x)
  {
    var n: nat := if x < 0 then -x else x;
    NatTextDigits(n);
    if x < 0 {
      assert IntText(x)[1..] == NatText(n);
    }
  }

  lemma StripText(pad: string, x: int)
    requires pad == "" || pad == " "
    ensures StripRight(StripLeft(pad + IntText(x))) == IntText(x)
  {
    var text := IntText(x);
    IntTextShape(x);
    assert StripLeft(text) == text;
    if pad == " " {
      assert (pad + text)[1..] == text;
    }
  }

  /** `int` reads back the decimal text of every integer, with or without a leading space. */
  lemma ParseIntText(pad: string, x: int)
    requires pad == "" || pad == " "
    ensures ParseInt(pad + IntText(x)) == Ok(x)
  {
    StripText(pad, x);
    ParseTokenText(x);
  }

  lemma SplitNoComma(a: string)
    requires ',' !in a
    ensures Split(a) == [a]
  {
  }

  lemma {:induction false} FirstCommaAfter(a: string, rest: string)
    requires ',' !in a
    ensures FirstComma(a + "," + rest) == |a|
    decreases |a|
  {
    if a != [] {
      FirstCommaAfter(a[1..], rest);
      assert (a + "," + rest)[1..] == a[1..] + "," + rest;
    }
  }

  lemma SplitAfter(a: string, rest: string, s: string)
    requires ',' !in a && s == a + "," + rest
    ensures Split(s) == [a] + Split(rest)
  {
    FirstCommaAfter(a, rest);
    assert s[..|a|] == a;
    assert s[|a| + 1..] == rest;
  }

  lemma MoreItemsFirst(first: string, ys: seq<int>)
    requires ys != []
    ensures first + MoreItems(ys) == first + "," + (" " + IntText(ys[0]) + MoreItems(ys[1..]))
  {
  }

  /** The pieces after the first: each item's text behind the space that followed its comma. */
  function SpacedTexts(ys: seq<int>): (r: seq<string>)
    ensures |r| == |ys|
  {
    if ys == [] then [] else [" " + IntText(ys[0])] + SpacedTexts(ys[1..])
  }

  /** The pieces `split(',')` gives for "first" followed by the items of `ys`. */
  lemma {:induction false} SplitItems(first: string, ys: seq<int>)
    requires ',' !in first
    ensures Split(first + MoreItems(ys)) == [first] + SpacedTexts(ys)
    decreases |ys|
  {
    if ys == [] {
      assert first + MoreItems(ys) == first;
      SplitNoComma(first);
    } else {
      var next := " " + IntText(ys[0]);
      var rest := next + MoreItems(ys[1..]);
      IntTextShape(ys[0]);
      MoreItemsFirst(first, ys);
      SplitAfter(first, rest, first + MoreItems(ys));
      SplitItems(next, ys[1..]);
    }
  }

  lemma {:induction false} SpacedTextAt(ys: seq<int>, k: nat)
    requires k < |ys|
    ensures SpacedTexts(ys)[k] == " " + IntText(ys[k])
    decreases k
  {
    if k > 0 {
      SpacedTextAt(ys[1..], k - 1);
    }
  }

  /** `map(int, pieces)` gives `xs` when `int` reads each piece as the matching element of `xs`. */
  lemma {:induction false} ParseAllOk(pieces: seq<string>, xs: seq<int>)
    requires |pieces| == |xs|
    requires forall k :: 0 <= k < |xs| ==> ParseInt(pieces[k]) == Ok(xs[k])
    ensures ParseAll(pieces) == Ok(xs)
    decreases |xs|
  {
    if xs != [] {
      ParseAllOk(pieces[1..], xs[1..]);
      assert [xs[0]] + xs[1..] == xs;
    }
  }

  lemma InnerRender(xs: seq<int>)
    requires xs != []
    ensures Render(xs) != "[]"
    ensures Inner(Render(xs)) == IntText(xs[0]) + MoreItems(xs[1..])
  {
    var items := IntText(xs[0]) + MoreItems(xs[1..]);
    assert Render(xs) == "[" + items + "]";
    assert |Render(xs)| >= 3;
  }

  /** `int` reads each piece of a written list as the matching element. */
  lemma PiecesParse(xs: seq<int>, pieces: seq<string>)
    requires xs != [] && pieces == [IntText(xs[0])] + SpacedTexts(xs[1..])
    ensures |pieces| == |xs|
    ensures forall k :: 0 <= k < |xs| ==> ParseInt(pieces[k]) == Ok(xs[k])
  {
    forall k | 0 <= k < |xs|
      ensures ParseInt(pieces[k]) == Ok(xs[k])
    {
      if k == 0 {
        ParseIntText("", xs[0]);
        assert "" + IntText(xs[0]) == pieces[0];
      } else {
        SpacedTextAt(xs[1..], k - 1);
        ParseIntText(" ", xs[k]);
      }
    }
  }

  lemma ParseItems(xs: seq<int>)
    requires xs != []
    ensures ParseAll(Split(IntText(xs[0]) + MoreItems(xs[1..]))) == Ok(xs)
  {
    var first := IntText(xs[0]);
    IntTextShape(xs[0]);
    SplitItems(first, xs[1..]);
    var pieces := [first] + SpacedTexts(xs[1..]);
    PiecesParse(xs, pieces);
    ParseAllOk(pieces, xs);
  }

  /** Decoding a written list cell gives back the list, in every list column. */
  lemma DecodeRender(xs: seq<int>)
    ensures DecodeListCell(Render(xs)) == Ok(xs)
    ensures forall header :: IsListColumn(header) ==> DecodeCell(header, Render(xs)) == Ok(IntList(xs))
  {
    if xs != [] {
      InnerRender(xs);
      ParseItems(xs);
    }
  }

  /** `map(int, pieces)` succeeds exactly when `int` accepts every piece, and then holds what it reads. */
  lemma {:induction false} ParseAllPieces(pieces: seq<string>)
    ensures ParseAll(pieces).Ok? <==> forall k :: 0 <= k < |pieces| ==> ParseInt(pieces[k]).Ok?
    ensures ParseAll(pieces).Ok? ==> forall k :: 0 <= k < |pieces| ==> ParseInt(pieces[k]) == Ok(ParseAll(pieces).value[k])
    decreases |pieces|
  {
    if pieces != [] {
      ParseAllPieces(pieces[1..]);
      assert forall k :: 1 <= k < |pieces| ==> pieces[k] == pieces[1..][k - 1];
    }
  }

  // ---------------------------------------------------------------------------
  // load_traces: the rows loop

  type Traces = map<string, seq<TraceValue>>

  /** One empty list per header. */
  function EmptyTraces(headers: seq<string>): (t: Traces)
    ensures forall h :: h in t <==> h in headers
    ensures forall h :: h in t ==> t[h] == []
  {
    map h | h in headers :: []
  }

  predicate HasColumns(traces: Traces, headers: seq<string>) {
    forall k :: 0 <= k < |headers| ==> headers[k] in traces
  }

  /**
   * The first `i` cells of one row appended, each to the list of its column's
   * header; a cell beyond the last header raises IndexError.
   */
  function RowAppended(traces: Traces, headers: seq<string>, row: seq<string>, i: nat): (r: Result<Traces>)
    requires i <= |row| && HasColumns(traces, headers)
    ensures r.Ok? ==> r.value.Keys == traces.Keys
  {
    if i == 0 then Ok(traces)
    else
      match RowAppended(traces, headers, row, i - 1)
      case Err(e) => Err(e)
      case Ok(t) =>
        if i - 1 >= |headers| then Err(IndexError)
        else
          match DecodeCell(headers[i - 1], row[i - 1])
          case Err(e) => Err(e)
          case Ok(v) => Ok(t[headers[i - 1] := t[headers[i - 1]] + [v]])
  }

  /** The traces after reading `rows` in order; the first failing row ends the reading. */
  function LoadedRows(headers: seq<string>, rows: seq<seq<string>>): (r: Result<Traces>)
    ensures r.Ok? ==> r.value.Keys == EmptyTraces(headers).Keys
  {
    if rows == [] then Ok(EmptyTraces(headers))
    else
      match LoadedRows(headers, rows[..|rows| - 1])
      case Err(e) => Err(e)
      case Ok(t) => RowAppended(t, headers, rows[|rows| - 1], |rows[|rows| - 1]|)
  }

  /** The inner loop of `load_traces`: appends each cell of one row to its column. */
  method AppendRow(traces: Traces, headers: seq<string>, row: seq<string>) returns (r: Result<Traces>)
    requires HasColumns(traces, headers)
    ensures r == RowAppended(traces, headers, row, |row|)
  {
    var t := traces;
    var i := 0;
    while i < |row|
      invariant 0 <= i <= |row|
      invariant RowAppended(traces, headers, row, i) == Ok(t)
    {
      var next := AppendCell(traces, headers, row, i, t);
      if next.Err? {
        RowErrorPersists(traces, headers, row, i + 1, |row|);
        return next;
      }
      t := next.value;
      i := i + 1;
    }
    r := Ok(t);
  }

  /** One pass of the inner loop: cell `i` decoded and appended to its header's list. */
  method AppendCell(traces: Traces, headers: seq<string>, row: seq<string>, i: nat, t: Traces)
      returns (r: Result<Traces>)
    requires HasColumns(traces, headers) && i < |row|
    requires RowAppended(traces, headers, row, i) == Ok(t)
    ensures r == RowAppended(traces, headers, row, i + 1)
  {
    if i >= |headers| {
      return Err(IndexError);
    }
    var data := DecodeCell(headers[i], row[i]);
    if data.Err? {
      return Err(data.error);
    }
    r := Ok(t[headers[i] := t[headers[i]] + [data.value]]);
  }

  /**
   * `load_traces` after the header row: one list per header, then every row's
   * cells appended to the lists of their columns. Reading the file is left out.
   */
  method LoadTraceRows(headers: seq<string>, rows: seq<seq<string>>) returns (r: Result<Traces>)
    ensures r == LoadedRows(headers, rows)
  {
    var traces := EmptyTraces(headers);
    var n := 0;
    while n < |rows|
      invariant 0 <= n <= |rows|
      invariant LoadedRows(headers, rows[..n]) == Ok(traces)
    {
      assert rows[..n + 1][..n] == rows[..n];
      var next := AppendRow(traces, headers, rows[n]);
      if next.Err? {
        LoadErrorPersists(headers, rows, n + 1, |rows|);
        assert rows[..|rows|] == rows;
        return Err(next.error);
      }
      traces := next.value;
      n := n + 1;
    }
    assert rows[..n] == rows;
    r := Ok(traces);
  }

  /** Once a cell of a row fails, the row's result is that failure. */
  lemma {:induction false} RowErrorPersists(traces: Traces, headers: seq<string>, row: seq<string>, i: nat, j: nat)
    requires HasColumns(traces, headers) && i <= j <= |row|
    requires RowAppended(traces, headers, row, i).Err?
    ensures RowAppended(traces, headers, row, j) == RowAppended(traces, headers, row, i)
    decreases j
  {
    if i < j {
      RowErrorPersists(traces, headers, row, i, j - 1);
    }
  }

  /** Once a row fails, reading more rows keeps that failure. */
  lemma {:induction false} LoadErrorPersists(headers: seq<string>, rows: seq<seq<string>>, i: nat, j: nat)
    requires i <= j <= |rows|
    requires LoadedRows(headers, rows[..i]).Err?
    ensures LoadedRows(headers, rows[..j]) == LoadedRows(headers, rows[..i])
    decreases j
  {
    if i < j {
      LoadErrorPersists(headers, rows, i, j - 1);
      assert rows[..j][..j - 1] == rows[..j - 1];
    }
  }

  predicate DistinctHeaders(headers: seq<string>) {
    forall j, k :: 0 <= j < k < |headers| ==> headers[j] != headers[k]
  }

  /** A row whose cells all decode, with one cell per header. */
  predicate WellFormedRow(headers: seq<string>, row: seq<string>) {
    |row| == |headers| && forall k :: 0 <= k < |row| ==> DecodeCell(headers[k], row[k]).Ok?
  }

  predicate WellFormedRows(headers: seq<string>, rows: seq<seq<string>>) {
    forall t :: 0 <= t < |rows| ==> WellFormedRow(headers, rows[t])
  }

  /** The value cell `k` of a well-formed row decodes to. */
  function CellValue(headers: seq<string>, row: seq<string>, k: nat): TraceValue
    requires WellFormedRow(headers, row) && k < |headers|
  {
    DecodeCell(headers[k], row[k]).value
  }

  /** Appending a well-formed row adds exactly its own cell's value to each column. */
  lemma {:induction false} RowAppendsOne(traces: Traces, headers: seq<string>, row: seq<string>, i: nat)
    requires HasColumns(traces, headers) && DistinctHeaders(headers)
    requires WellFormedRow(headers, row) && i <= |row|
    ensures RowAppended(traces, headers, row, i).Ok?
    ensures forall k :: 0 <= k < |headers| ==>
      RowAppended(traces, headers, row, i).value[headers[k]]
        == traces[headers[k]] + (if k < i then [CellValue(headers, row, k)] else [])
    decreases i
  {
    if i > 0 {
      RowAppendsOne(traces, headers, row, i - 1);
    }
  }

  /** A row with more cells than there are headers raises IndexError once its in-range cells decode. */
  lemma RowTooLong(traces: Traces, headers: seq<string>, row: seq<string>)
    requires HasColumns(traces, headers)
    requires |row| > |headers|
    requires forall k :: 0 <= k < |headers| ==> DecodeCell(headers[k], row[k]).Ok?
    ensures RowAppended(traces, headers, row, |row|) == Err(IndexError)
  {
    var t := RowAppended(traces, headers, row, |headers|);
    assert t.Ok? by {
      RowDecodes(traces, headers, row, |headers|);
    }
    var i := |headers| + 1;
    while i < |row|
      invariant |headers| + 1 <= i <= |row|
      invariant RowAppended(traces, headers, row, i) == Err(IndexError)
    {
      i := i + 1;
    }
  }

  lemma {:induction false} RowDecodes(traces: Traces, headers: seq<string>, row: seq<string>, i: nat)
    requires HasColumns(traces, headers) && i <= |headers| && i <= |row|
    requires forall k :: 0 <= k < i ==> DecodeCell(headers[k], row[k]).Ok?
    ensures RowAppended(traces, headers, row, i).Ok?
    decreases i
  {
    if i > 0 {
      RowDecodes(traces, headers, row, i - 1);
    }
  }

  /** Column `k` as the rows give it: each row's own cell `k`, decoded, in row order. */
  function Column(headers: seq<string>, rows: seq<seq<string>>, k: nat): seq<TraceValue>
    requires WellFormedRows(headers, rows) && k < |headers|
  {
    if rows == [] then []
    else Column(headers, rows[..|rows| - 1], k) + [CellValue(headers, rows[|rows| - 1], k)]
  }

  /** Column `k` holds one value per row, row `t`'s at position `t`. */
  lemma {:induction false} ColumnAt(headers: seq<string>, rows: seq<seq<string>>, k: nat)
    requires WellFormedRows(headers, rows) && k < |headers|
    ensures |Column(headers, rows, k)| == |rows|
    ensures forall t :: 0 <= t < |rows| ==> Column(headers, rows, k)[t] == CellValue(headers, rows[t], k)
    decreases |rows|
  {
    if rows != [] {
      var front := rows[..|rows| - 1];
      ColumnAt(headers, front, k);
      assert forall t :: 0 <= t < |front| ==> front[t] == rows[t];
    }
  }

  /**
   * With distinct headers and well-formed rows, reading succeeds and every
   * header's list is its column.
   */
  lemma {:induction false} LoadedColumns(headers: seq<string>, rows: seq<seq<string>>)
    requires DistinctHeaders(headers) && WellFormedRows(headers, rows)
    ensures LoadedRows(headers, rows).Ok?
    ensures forall k :: 0 <= k < |headers| ==> LoadedRows(headers, rows).value[headers[k]] == Column(headers, rows, k)
    decreases |rows|
  {
    if rows != [] {
      var front := rows[..|rows| - 1];
      var last := rows[|rows| - 1];
      LoadedColumns(headers, front);
      var before := LoadedRows(headers, front).value;
      assert HasColumns(before, headers);
      RowAppendsOne(before, headers, last, |last|);
    }
  }

  /** Every header's list holds one value per row, the row's own cell decoded. */
  lemma LoadedValues(headers: seq<string>, rows: seq<seq<string>>)
    requires DistinctHeaders(headers) && WellFormedRows(headers, rows)
    ensures LoadedRows(headers, rows).Ok?
    ensures forall k :: 0 <= k < |headers| ==> |LoadedRows(headers, rows).value[headers[k]]| == |rows|
    ensures forall k, t :: 0 <= k < |headers| && 0 <= t < |rows| ==>
      LoadedRows(headers, rows).value[headers[k]][t] == CellValue(headers, rows[t], k)
  {
    LoadedColumns(headers, rows);
    forall k | 0 <= k < |headers| {
      ColumnAt(headers, rows, k);
    }
  }
}
