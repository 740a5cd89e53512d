/**
 The main loop of text_pull.py. It writes two files in step: a text file
 with a "Text" and an "ID" column, whose text cell is the fastText label,
 a space and the review body with stop words removed by the lowercase
 test; and a metadata file with the identifier and the seven sanitised
 fields. Row numbering and the IndexError on a short row are as in
 Word_Accociation.py.
 */
module TextPull {
  import opened Wrappers
  import opened Text
  import opened Ascii
  import opened Labels
  import opened Strip
  import opened StopWords
  import opened Rows

  const TextHeader: seq<string> := ["Text", "ID"]

  /** Where the pieces of a label, a space and a body sit in their concatenation. */
  lemma CellLayout(tag: string, id: string, body: string, prefix: string)
    requires |prefix| == 16 && IsPrefix(prefix, tag)
    requires |tag| == |id| + 10 && tag[|tag| - 1] == ' ' && tag[9..|tag| - 1] == id
    ensures var r := tag + " " + body; var n := |id|;
      && IsPrefix(prefix, r)
      && |r| >= n + 11
      && r[9..9 + n] == id
      && r[9 + n] == ' ' && r[10 + n] == ' '
      && r[n + 11..] == body
  {
    var n := |id|;
    SliceOfConcat(tag + " ", body, 0, 16);
    SliceOfConcat(tag + " ", body, 9, 9 + n);
    SliceOfConcat(tag + " ", body, n + 11, n + 11 + |body|);
    SliceOfConcat(tag, " ", 9, 9 + n);
    SliceOfConcat(tag, " ", 0, 16);
  }

  /** The label, a space and the filtered body, with the label's pieces located. */
  lemma LabelledBodyLayout(row: seq<string>, counter: nat, stops: set<string>, tokenize: string -> seq<string>)
    requires Complete(row)
    ensures var body := RemoveStopWordsFolded(ReviewBody(row), stops, tokenize);
      var r := Label(counter) + " " + body; var n := |IdWrite(counter)|;
      && IsPrefix(LabelPrefix + IdPrefix, r)
      && |r| >= n + 11
      && r[9..9 + n] == IdWrite(counter)
      && r[9 + n] == ' ' && r[10 + n] == ' '
      && r[n + 11..] == body
  {
    CellLayout(Label(counter), IdWrite(counter), RemoveStopWordsFolded(ReviewBody(row), stops, tokenize), LabelPrefix + IdPrefix);
  }

  /** `review_text_no_stops`: the label, one more space, and the filtered body. */
  function TextCell(row: seq<string>, counter: nat, stops: set<string>, tokenize: string -> seq<string>): (r: string)
    requires Complete(row)
    ensures IsPrefix(LabelPrefix + IdPrefix, r)
    ensures var n := |IdWrite(counter)|;
      && |r| >= n + 11
      && r[9..9 + n] == IdWrite(counter)
      && r[9 + n] == ' ' && r[10 + n] == ' '
      && r[n + 11..] == RemoveStopWordsFolded(ReviewBody(row), stops, tokenize)
  {
    LabelledBodyLayout(row, counter, stops, tokenize);
    Label(counter) + " " + RemoveStopWordsFolded(ReviewBody(row), stops, tokenize)
  }

  /** One loop iteration: the text row and the metadata row, both keyed by the identifier. */
  datatype RowPair = RowPair(text: seq<string>, meta: seq<string>)

  function Pair(row: seq<string>, counter: nat, stops: set<string>, tokenize: string -> seq<string>): (p: RowPair)
    requires Complete(row)
    ensures |p.text| == |TextHeader| && |p.meta| == |MetaHeader|
    ensures p.text[1] == IdWrite(counter) && p.meta[0] == IdWrite(counter)
    ensures p.text[0] == TextCell(row, counter, stops, tokenize) && p.meta[1..] == MetaCells(row)
  {
    RowPair([TextCell(row, counter, stops, tokenize), IdWrite(counter)], [IdWrite(counter)] + MetaCells(row))
  }

  /** The loop body (only complete rows reach it). */
  function WritePair(stops: set<string>, tokenize: string -> seq<string>, row: seq<string>, counter: nat): RowPair {
    if Complete(row) then Pair(row, counter, stops, tokenize) else RowPair([], [])
  }

  function PairWriter(stops: set<string>, tokenize: string -> seq<string>): (seq<string>, nat) -> RowPair {
    (row: seq<string>, counter: nat) => WritePair(stops, tokenize, row, counter)
  }

  /** The two output files and whether the loop ran to the end. */
  datatype Files = Files(texts: seq<seq<string>>, metas: seq<seq<string>>, completed: bool)

  function Texts(ps: seq<RowPair>): (r: seq<seq<string>>)
    ensures |r| == |ps| && forall k :: 0 <= k < |ps| ==> r[k] == ps[k].text
  {
    seq(|ps|, k requires 0 <= k < |ps| => ps[k].text)
  }

  function Metas(ps: seq<RowPair>): (r: seq<seq<string>>)
    ensures |r| == |ps| && forall k :: 0 <= k < |ps| ==> r[k] == ps[k].meta
  {
    seq(|ps|, k requires 0 <= k < |ps| => ps[k].meta)
  }

  /** The two files from the loop's outcome: each header, then its half of every row pair. */
  function FilesOf(o: Outcome<RowPair>): (f: Files)
    ensures |f.texts| == |f.metas| == |o.rows| + 1
    ensures f.texts[0] == TextHeader && f.metas[0] == MetaHeader
    ensures f.completed == o.Completed?
    ensures forall k :: 1 <= k < |f.texts| ==> f.texts[k] == o.rows[k - 1].text && f.metas[k] == o.rows[k - 1].meta
  {
    Files([TextHeader] + Texts(o.rows), [MetaHeader] + Metas(o.rows), o.Completed?)
  }

  function Run(input: seq<seq<string>>, stops: set<string>, tokenize: string -> seq<string>): (f: Files)
    ensures |f.texts| == |f.metas| >= 1
    ensures f.texts[0] == TextHeader && f.metas[0] == MetaHeader
  {
    FilesOf(ProcessTable(input, PairWriter(stops, tokenize)))
  }

  /**
   When data rows 1 to k all have eight fields, data row k of both files is
   the pair built from input row k with counter k + 1.
   */
  lemma RunPair(input: seq<seq<string>>, stops: set<string>, tokenize: string -> seq<string>, k: nat)
    requires 1 <= k < |input| && forall i :: 1 <= i <= k ==> Complete(input[i])
    ensures k < |Run(input, stops, tokenize).texts|
    ensures var f := Run(input, stops, tokenize); var p := Pair(input[k], k + 1, stops, tokenize);
      f.texts[k] == p.text && f.metas[k] == p.meta
  {
    var w := PairWriter(stops, tokenize);
    ProcessTableAt(input, w, k);
    var o := ProcessTable(input, w);
    assert o.rows[k - 1] == WritePair(stops, tokenize, input[k], k + 1);
    assert Complete(input[k]);
  }

  /**
   When data rows 1 to k all have eight fields, the files have a row k, and
   it comes from input row k with counter k + 1: the text row is two cells
   with the identifier second, the metadata row eight cells with the
   identifier first, matching the two headers.
   */
  lemma RunRows(input: seq<seq<string>>, stops: set<string>, tokenize: string -> seq<string>, k: nat)
    requires 1 <= k < |input| && forall i :: 1 <= i <= k ==> Complete(input[i])
    ensures k < |Run(input, stops, tokenize).texts|
    ensures var f := Run(input, stops, tokenize);
      && |f.texts[k]| == |TextHeader| && |f.metas[k]| == |MetaHeader|
      && f.texts[k][1] == IdWrite(k + 1) && f.metas[k][0] == IdWrite(k + 1)
      && f.texts[k][0] == TextCell(input[k], k + 1, stops, tokenize)
      && f.metas[k][1..] == MetaCells(input[k])
  {
    RunPair(input, stops, tokenize, k);
  }

  /** The files are complete exactly when every data row has eight fields. */
  lemma RunOutcome(input: seq<seq<string>>, stops: set<string>, tokenize: string -> seq<string>)
    requires input != []
    ensures var f := Run(input, stops, tokenize);
      && (f.completed <==> forall k :: 1 <= k < |input| ==> Complete(input[k]))
      && (f.completed ==> |f.texts| == |input|)
      && (!f.completed ==> |f.texts| < |input| && !Complete(input[|f.texts|]))
  {
    var o := ProcessTable(input, PairWriter(stops, tokenize));
    ProcessTableOutcome(input, PairWriter(stops, tokenize));
    assert Run(input, stops, tokenize) == FilesOf(o);
  }

  /**
   Identifiers in the text file never repeat, each reads back as its row's
   counter, and while counters stay below 100000 they are in increasing
   string order too.
   */
  lemma IdsIncreasing(input: seq<seq<string>>, stops: set<string>, tokenize: string -> seq<string>, i: nat, j: nat)
    requires 1 <= i < j < |input| && forall m :: 1 <= m <= j ==> Complete(input[m])
    ensures j < |Run(input, stops, tokenize).texts|
    ensures var f := Run(input, stops, tokenize);
      && |f.texts[i]| == 2 && |f.texts[j]| == 2
      && ParseId(f.texts[i][1]) == Some(i + 1)
      && f.texts[i][1] != f.texts[j][1]
      && (j + 1 < 100000 ==> LexLess(f.texts[i][1], f.texts[j][1]))
  {
    RunRows(input, stops, tokenize, i);
    RunRows(input, stops, tokenize, j);
    IdRoundTrip(i + 1);
    IdInjective(i + 1, j + 1);
    if j + 1 < 100000 {
      IdOrder(i + 1, j + 1);
    }
  }

  /**
   A first surviving token made only of stripped characters (such as "$",
   when the base list lacks it) adds a third space after the identifier.
   */
  lemma EmptyFirstPieceThirdSpace(row: seq<string>, counter: nat, stops: set<string>, tokenize: string -> seq<string>)
    requires Complete(row)
    requires var ws := tokenize(ReviewBody(row));
      |ws| > 0 && Lower(ws[0]) !in stops && Normalise(ws[0]) == []
    ensures var r := TextCell(row, counter, stops, tokenize); var n := |IdWrite(counter)|;
      |r| >= n + 12 && r[n + 11] == ' '
  {
    FoldedLeadingSpace(ReviewBody(row), stops, tokenize);
  }
}
