/**
 Loading the vocabulary of Word_Accociation.py: every line of the labels
 file contributes the text before its first comma to a set, and that set's
 iteration order fixes both the header columns and the order of the counts.
 The set is modelled as a sequence without repeats, in first-occurrence
 order; the row lemmas hold for any order.
 */
module Vocabulary {
  import opened Text

  /** `line.split(',')[0]`: the text before the first comma, or the whole line. */
  function FirstField(line: string): (f: string)
    ensures IsPrefix(f, line) && ',' !in f
    ensures |f| < |line| ==> line[|f|] == ','
  {
    if line == [] || line[0] == ',' then []
    else [line[0]] + FirstField(line[1..])
  }

  /** There is only one string with FirstField's contract, so it is the first field. */
  lemma {:induction false} FirstFieldUnique(line: string, f: string)
    requires IsPrefix(f, line) && ',' !in f
    requires |f| < |line| ==> line[|f|] == ','
    ensures f == FirstField(line)
  {
    if f != [] {
      assert line[0] == f[0];
      assert f[1..] == line[1..][..|f| - 1];
      FirstFieldUnique(line[1..], f[1..]);
      HeadTail(f);
    }
  }

  predicate Distinct<T(==)>(s: seq<T>) {
    forall i, j :: 0 <= i < j < |s| ==> s[i] != s[j]
  }

  /** The set of first fields, as Word_Accociation.py builds it. */
  function Wordset(lines: seq<string>): set<string> {
    set i | 0 <= i < |lines| :: FirstField(lines[i])
  }

  /**
   The loop that fills the set and then lists it: each first field is kept
   the first time it is seen. The result has no repeats and holds exactly
   the first fields of the lines.
   */
  method LoadVocabulary(lines: seq<string>) returns (vocab: seq<string>)
    ensures Distinct(vocab) && |vocab| <= |lines|
    ensures forall t :: t in vocab <==> exists i :: 0 <= i < |lines| && FirstField(lines[i]) == t
  {
    vocab := [];
    var k := 0;
    while k < |lines|
      invariant 0 <= k <= |lines|
      invariant Distinct(vocab) && |vocab| <= k
      invariant forall t :: t in vocab <==> exists i :: 0 <= i < k && FirstField(lines[i]) == t
    {
      var term := FirstField(lines[k]);
      if term !in vocab {
        vocab := vocab + [term];
      }
      k := k + 1;
    }
  }

  /**
   The listed vocabulary and the set describe the same terms, and the list
   has one entry per member of the set, so the header gets one column per
   distinct term.
   */
  lemma VocabularyIsWordset(lines: seq<string>, vocab: seq<string>)
    requires Distinct(vocab)
    requires forall t :: t in vocab <==> exists i :: 0 <= i < |lines| && FirstField(lines[i]) == t
    ensures forall t :: t in vocab <==> t in Wordset(lines)
    ensures |vocab| == |Wordset(lines)|
  {
    assert (set t | t in vocab) == Wordset(lines);
    DistinctCardinality(vocab);
  }

  lemma {:induction false} DistinctCardinality<T>(s: seq<T>)
    requires Distinct(s)
    ensures |set x | x in s| == |s|
  {
    if s != [] {
      var last := s[|s| - 1];
      var init := s[..|s| - 1];
      DistinctCardinality(init);
      assert (set x | x in s) == (set x | x in init) + {last};
      assert last !in init;
    }
  }

  /** A file without any line gives an empty vocabulary and no count columns. */
  lemma EmptyFileNoTerms()
    ensures Wordset([]) == {}
  {
  }

  /** Lines that differ only after their first comma contribute one term. */
  lemma SameFirstFieldOneTerm(a: string, b: string)
    requires ',' in a && ',' in b
    requires a[..|FirstField(a)|] == b[..|FirstField(b)|]
    ensures Wordset([a, b]) == {FirstField(a)}
  {
    assert FirstField(a) == a[..|FirstField(a)|];
    assert FirstField(b) == b[..|FirstField(b)|];
    var s := Wordset([a, b]);
    assert FirstField([a, b][0]) in s && FirstField([a, b][1]) in s;
  }
}
