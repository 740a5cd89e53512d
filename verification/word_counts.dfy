/**
 The main loop of Word_Accociation.py. The header is the metadata header
 followed by the vocabulary terms. The first input row is the table's own
 header and is skipped, but the counter counts it, so the data row at input
 position k gets counter k + 1. Each data row becomes the identifier, the
 seven metadata cells and one count per term, taken over the tokens of the
 label, a space and the stop-word-free review body. A data row with fewer
 than eight fields raises IndexError: the rows written so far stay written
 and the run stops.
 */
module WordCounts {
  import opened Text
  import opened Ascii
  import opened Labels
  import opened StopWords
  import opened Counts
  import opened Rows

  datatype Cell = Str(s: string) | Num(n: nat)

  function Strs(ss: seq<string>): (r: seq<Cell>)
    ensures |r| == |ss| && forall k :: 0 <= k < |ss| ==> r[k] == Str(ss[k])
  {
    seq(|ss|, k requires 0 <= k < |ss| => Str(ss[k]))
  }

  function HeaderRow(vocab: seq<string>): (r: seq<Cell>)
    ensures |r| == 8 + |vocab|
    ensures r[..8] == Strs(MetaHeader)
    ensures forall j :: 0 <= j < |vocab| ==> r[8 + j] == Str(vocab[j])
  {
    Strs(MetaHeader + vocab)
  }

  /** `review_text_no_stops`: the label, a space, and the review body without stop words. */
  function LabelledText(row: seq<string>, counter: nat, stops: set<string>, tokenize: string -> seq<string>): string
    requires Complete(row)
  {
    Label(counter) + " " + RemoveStopWordsExact(ReviewBody(row), stops, tokenize)
  }

  /**
   One output row: the identifier, the metadata cells, and for term j the
   number of tokens of the labelled text equal to the lowercased term.
   */
  function DataRow(row: seq<string>, counter: nat, vocab: seq<string>, stops: set<string>,
                   tokenize: string -> seq<string>): (r: seq<Cell>)
    requires Complete(row)
    ensures |r| == 8 + |vocab|
    ensures r[0] == Str(IdWrite(counter))
    ensures forall k :: 0 <= k < 7 ==> r[k + 1] == Str(MetaCell(row[k]))
    ensures forall j :: 0 <= j < |vocab| ==>
              r[8 + j] == Num(multiset(tokenize(LabelledText(row, counter, stops, tokenize)))[Lower(vocab[j])])
  {
    var tokens := tokenize(LabelledText(row, counter, stops, tokenize));
    var counts := CountVector(tokens, vocab);
    [Str(IdWrite(counter))] + Strs(MetaCells(row))
      + seq(|vocab|, j requires 0 <= j < |vocab| => Num(counts[j]))
  }

  /** The loop body (only complete rows reach it). */
  function WriteRow(vocab: seq<string>, stops: set<string>, tokenize: string -> seq<string>,
                    row: seq<string>, counter: nat): seq<Cell>
  {
    if Complete(row) then DataRow(row, counter, vocab, stops, tokenize) else []
  }

  /** The loop body as a function of the row and its counter. */
  function RowWriter(vocab: seq<string>, stops: set<string>, tokenize: string -> seq<string>)
    : (seq<string>, nat) -> seq<Cell>
  {
    (row: seq<string>, counter: nat) => WriteRow(vocab, stops, tokenize, row, counter)
  }

  /** The output file: the header row, then whatever the loop wrote before it ended. */
  function Run(input: seq<seq<string>>, vocab: seq<string>, stops: set<string>,
               tokenize: string -> seq<string>): (o: Outcome<seq<Cell>>)
    ensures |o.rows| >= 1 && o.rows[0] == HeaderRow(vocab)
    ensures o.Completed? == ProcessTable(input, RowWriter(vocab, stops, tokenize)).Completed?
  {
    match ProcessTable(input, RowWriter(vocab, stops, tokenize))
    case Completed(rows) => Completed([HeaderRow(vocab)] + rows)
    case IndexError(rows) => IndexError([HeaderRow(vocab)] + rows)
  }

  /** The table is the header row followed by what the row loop wrote. */
  lemma RunUnfold(input: seq<seq<string>>, vocab: seq<string>, stops: set<string>,
                  tokenize: string -> seq<string>)
    ensures Run(input, vocab, stops, tokenize).rows
         == [HeaderRow(vocab)] + ProcessTable(input, RowWriter(vocab, stops, tokenize)).rows
  {
  }

  /**
   When data rows 1 to k all have eight fields, output row k exists and is
   the data row of input row k with counter k + 1, so the first data row is
   numbered 2.
   */
  lemma RunRow(input: seq<seq<string>>, vocab: seq<string>, stops: set<string>,
               tokenize: string -> seq<string>, k: nat)
    requires 1 <= k < |input| && forall i :: 1 <= i <= k ==> Complete(input[i])
    ensures k < |Run(input, vocab, stops, tokenize).rows|
    ensures Run(input, vocab, stops, tokenize).rows[k] == DataRow(input[k], k + 1, vocab, stops, tokenize)
  {
    var f := RowWriter(vocab, stops, tokenize);
    ProcessTableAt(input, f, k);
    RunUnfold(input, vocab, stops, tokenize);
    var p := ProcessTable(input, f);
    assert Run(input, vocab, stops, tokenize).rows[k] == p.rows[k - 1];
    assert p.rows[k - 1] == WriteRow(vocab, stops, tokenize, input[k], k + 1);
    assert Complete(input[k]);
  }

  /**
   Row shape: when data rows 1 to k all have eight fields, output row k
   exists and comes from input row k with counter k + 1; it is as wide as
   the header, and column 8 + j counts the term that heads column 8 + j.
   */
  lemma RunRows(input: seq<seq<string>>, vocab: seq<string>, stops: set<string>,
                tokenize: string -> seq<string>, k: nat)
    requires 1 <= k < |input| && forall i :: 1 <= i <= k ==> Complete(input[i])
    ensures k < |Run(input, vocab, stops, tokenize).rows|
    ensures var row := Run(input, vocab, stops, tokenize).rows[k];
      && |row| == |HeaderRow(vocab)|
      && row[0] == Str(IdWrite(k + 1))
      && forall j :: 0 <= j < |vocab| ==>
           HeaderRow(vocab)[8 + j] == Str(vocab[j])
           && row[8 + j] == Num(multiset(tokenize(LabelledText(input[k], k + 1, stops, tokenize)))[Lower(vocab[j])])
  {
    RunRow(input, vocab, stops, tokenize, k);
  }

  /**
   The run completes exactly when every data row has eight fields, and then
   writes one row per input row (the header row for the table's header).
   On IndexError the rows written are those before the first short row.
   */
  lemma RunOutcome(input: seq<seq<string>>, vocab: seq<string>, stops: set<string>,
                   tokenize: string -> seq<string>)
    requires input != []
    ensures var o := Run(input, vocab, stops, tokenize);
      && (o.Completed? <==> forall k :: 1 <= k < |input| ==> Complete(input[k]))
      && (o.Completed? ==> |o.rows| == |input|)
      && (o.IndexError? ==> |o.rows| < |input| && !Complete(input[|o.rows|]))
  {
    var p := ProcessTable(input, RowWriter(vocab, stops, tokenize));
    ProcessTableOutcome(input, RowWriter(vocab, stops, tokenize));
    RunUnfold(input, vocab, stops, tokenize);
    assert |Run(input, vocab, stops, tokenize).rows| == 1 + |p.rows|;
  }

  /** An empty input file still gets its header row. */
  lemma EmptyInputHeaderOnly(vocab: seq<string>, stops: set<string>, tokenize: string -> seq<string>)
    ensures Run([], vocab, stops, tokenize) == Completed([HeaderRow(vocab)])
  {
  }
}
