/**
 The pieces both scripts share when they turn one row of the review table
 (artist, album, genre, reviewer, date, link, score, text) into output: the
 metadata header, the seven sanitised metadata cells and the review body in
 bytes notation. Rows are sequences of fields; the CSV layer is not modelled.
 */
module Rows {
  import opened Wrappers
  import opened Ascii

  /** Input fields a data row must have: the review body is field 7. */
  const RowWidth: nat := 8

  const MetaHeader: seq<string> :=
    ["ID", "Artist", "Album", "Genre", "Reviewed By", "Reviewed Date", "Review Link", "Score"]

  /**
   The cells for fields 0 to 6, in order. Each is the bytes notation of the
   sanitised field and decodes back to it.
   */
  function MetaCells(row: seq<string>): (r: seq<string>)
    requires |row| >= RowWidth
    ensures |r| == 7
    ensures forall k :: 0 <= k < 7 ==> |r[k]| >= 3 && r[k][0] == 'b' && DecodeBytesRepr(r[k]) == Some(RemoveNonAscii(row[k]))
  {
    var r := seq(7, k requires 0 <= k < 7 => MetaCell(row[k]));
    assert forall k :: 0 <= k < 7 ==> DecodeBytesRepr(r[k]) == Some(RemoveNonAscii(row[k])) by {
      forall k | 0 <= k < 7
        ensures DecodeBytesRepr(r[k]) == Some(RemoveNonAscii(row[k]))
      {
        MetaCellRoundTrip(row[k]);
      }
    }
    r
  }

  /** Two rows give the same metadata cells exactly when their sanitised fields agree. */
  lemma MetaCellsInjective(x: seq<string>, y: seq<string>)
    requires |x| >= RowWidth && |y| >= RowWidth
    ensures MetaCells(x) == MetaCells(y) <==> forall k :: 0 <= k < 7 ==> RemoveNonAscii(x[k]) == RemoveNonAscii(y[k])
  {
    if forall k :: 0 <= k < 7 ==> RemoveNonAscii(x[k]) == RemoveNonAscii(y[k]) {
      forall k | 0 <= k < 7
        ensures MetaCells(x)[k] == MetaCells(y)[k]
      {
        MetaCellInjective(x[k], y[k]);
      }
    }
  }

  /** The review body as handed to the stop-word remover: its bytes notation, not the text. */
  function ReviewBody(row: seq<string>): (r: string)
    requires |row| >= RowWidth
    ensures |r| >= 3 && r[0] == 'b' && DecodeBytesRepr(r) == Some(RemoveNonAscii(row[7]))
  {
    MetaCellRoundTrip(row[7]);
    MetaCell(row[7])
  }

  /** A data row can be processed exactly when it has all eight fields. */
  predicate Complete(row: seq<string>) {
    |row| >= RowWidth
  }

  /** Index of the first row without all eight fields, or the number of rows. */
  function FirstShort(data: seq<seq<string>>): (m: nat)
    ensures m <= |data|
    ensures forall k :: 0 <= k < m ==> Complete(data[k])
    ensures m < |data| ==> !Complete(data[m])
  {
    if data == [] || !Complete(data[0]) then 0 else 1 + FirstShort(data[1..])
  }

  /**
   How a run over the table ends: every data row processed, or IndexError at
   a short row. Either way `rows` holds what was produced before the end.
   */
  datatype Outcome<T> = Completed(rows: seq<T>) | IndexError(rows: seq<T>)

  /**
   The per-row loop body applied to consecutive rows with consecutive
   counters, stopping at the first row without eight fields.
   */
  function ProcessRows<T>(data: seq<seq<string>>, counter: nat, f: (seq<string>, nat) -> T): (o: Outcome<T>)
    ensures |o.rows| == FirstShort(data)
    ensures o.Completed? <==> FirstShort(data) == |data|
    ensures forall k :: 0 <= k < |o.rows| ==> o.rows[k] == f(data[k], counter + k)
    decreases |data|
  {
    if data == [] then Completed([])
    else if !Complete(data[0]) then IndexError([])
    else
      match ProcessRows(data[1..], counter + 1, f)
      case Completed(rows) => Completed([f(data[0], counter)] + rows)
      case IndexError(rows) => IndexError([f(data[0], counter)] + rows)
  }

  /**
   Both main loops: the first input row is the table's header and is
   skipped, but the counter has already counted it, so data rows start at 2.
   */
  function ProcessTable<T>(input: seq<seq<string>>, f: (seq<string>, nat) -> T): Outcome<T> {
    ProcessRows(if input == [] then [] else input[1..], 2, f)
  }

  /** When the first m rows all have eight fields, the first short row is at m or later. */
  lemma {:induction false} FirstShortReaches(data: seq<seq<string>>, m: nat)
    requires m <= |data| && forall i :: 0 <= i < m ==> Complete(data[i])
    ensures FirstShort(data) >= m
    decreases m
  {
    if m > 0 {
      assert Complete(data[0]);
      assert forall i :: 0 <= i < m - 1 ==> data[1..][i] == data[i + 1];
      FirstShortReaches(data[1..], m - 1);
    }
  }

  /** When data rows 1 to k all have eight fields, the loop produces at least k outputs. */
  lemma ProcessTableReaches<T>(input: seq<seq<string>>, f: (seq<string>, nat) -> T, k: nat)
    requires k < |input| && forall i :: 1 <= i <= k ==> Complete(input[i])
    ensures k <= |ProcessTable(input, f).rows|
  {
    var data := input[1..];
    assert forall i :: 0 <= i < k ==> data[i] == input[i + 1];
    FirstShortReaches(data, k);
  }

  /** When data rows 1 to k all have eight fields, output k - 1 is row k written with counter k + 1. */
  lemma ProcessTableAt<T>(input: seq<seq<string>>, f: (seq<string>, nat) -> T, k: nat)
    requires 1 <= k < |input| && forall i :: 1 <= i <= k ==> Complete(input[i])
    ensures k - 1 < |ProcessTable(input, f).rows|
    ensures ProcessTable(input, f).rows[k - 1] == f(input[k], k + 1)
  {
    ProcessTableReaches(input, f, k);
    ProcessTableRows(input, f);
  }

  /** Output k comes from input row k + 1, which is complete, with counter k + 2. */
  lemma ProcessTableRows<T>(input: seq<seq<string>>, f: (seq<string>, nat) -> T)
    ensures var o := ProcessTable(input, f);
      forall k :: 0 <= k < |o.rows| ==>
        k + 1 < |input| && Complete(input[k + 1]) && o.rows[k] == f(input[k + 1], k + 2)
  {
    if input != [] {
      var data := input[1..];
      assert forall k :: 0 <= k < |data| ==> data[k] == input[k + 1];
    }
  }

  /**
   The run completes exactly when every data row has eight fields, producing
   one output per data row; on IndexError, the input row after the last
   output is short.
   */
  lemma ProcessTableOutcome<T>(input: seq<seq<string>>, f: (seq<string>, nat) -> T)
    ensures var o := ProcessTable(input, f);
      && (o.Completed? <==> forall k :: 1 <= k < |input| ==> Complete(input[k]))
      && (o.Completed? ==> |o.rows| == if input == [] then 0 else |input| - 1)
      && (o.IndexError? ==> |o.rows| + 1 < |input| && !Complete(input[|o.rows| + 1]))
  {
    if input != [] {
      var data := input[1..];
      assert forall k :: 0 <= k < |data| ==> data[k] == input[k + 1];
      if forall k :: 1 <= k < |input| ==> Complete(input[k]) {
        assert forall k :: 0 <= k < |data| ==> Complete(data[k]) by {
          forall k | 0 <= k < |data|
            ensures Complete(data[k])
          {
            assert data[k] == input[k + 1];
          }
        }
      }
    }
  }
}
