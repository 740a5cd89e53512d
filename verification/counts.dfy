/**
 The term-count vector of Word_Accociation.py: for every vocabulary term, in
 vocabulary order, how many tokens of the labelled review text equal the
 lowercased term. The strip chain computed inside the inner loop is
 discarded, so tokens are compared exactly as the tokenizer produced them.
 */
module Counts {
  import opened Text

  /** The count for each term: the multiplicity of its lowercase form among the tokens. */
  function CountVector(tokens: seq<string>, vocab: seq<string>): (r: seq<nat>)
    ensures |r| == |vocab|
    ensures forall j :: 0 <= j < |vocab| ==> r[j] == multiset(tokens)[Lower(vocab[j])] && r[j] <= |tokens|
  {
    seq(|vocab|, j requires 0 <= j < |vocab| => Occurrences(tokens, Lower(vocab[j])))
  }

  /**
   The nested loop as written: for each term a fresh counter, incremented for
   every token equal to the lowercased term.
   */
  method CountNested(tokens: seq<string>, vocab: seq<string>) returns (counts: seq<nat>)
    ensures counts == CountVector(tokens, vocab)
  {
    counts := [];
    var j := 0;
    while j < |vocab|
      invariant 0 <= j <= |vocab|
      invariant counts == CountVector(tokens, vocab[..j])
    {
      var target := Lower(vocab[j]);
      var tokencount := 0;
      var k := 0;
      while k < |tokens|
        invariant 0 <= k <= |tokens|
        invariant tokencount == Occurrences(tokens[..k], target)
      {
        assert tokens[..k + 1][..k] == tokens[..k];
        if tokens[k] == target {
          tokencount := tokencount + 1;
        }
        k := k + 1;
      }
      assert tokens[..k] == tokens;
      assert vocab[..j + 1][..j] == vocab[..j];
      counts := counts + [tokencount];
      j := j + 1;
    }
    assert vocab[..j] == vocab;
  }

  /** How often `w` appears in a frequency table; absent words appear zero times. */
  function Lookup(freq: map<string, nat>, w: string): (n: nat)
    ensures w !in freq ==> n == 0
  {
    if w in freq then freq[w] else 0
  }

  /** Counting every token once into a table and reading the terms off it. */
  method FrequencyCounts(tokens: seq<string>, vocab: seq<string>) returns (counts: seq<nat>)
    ensures counts == CountVector(tokens, vocab)
  {
    var freq: map<string, nat> := map[];
    var k := 0;
    while k < |tokens|
      invariant 0 <= k <= |tokens|
      invariant forall w :: Lookup(freq, w) == multiset(tokens[..k])[w]
    {
      assert tokens[..k + 1] == tokens[..k] + [tokens[k]];
      freq := freq[tokens[k] := Lookup(freq, tokens[k]) + 1];
      k := k + 1;
    }
    assert tokens[..k] == tokens;
    counts := seq(|vocab|, j requires 0 <= j < |vocab| => Lookup(freq, Lower(vocab[j])));
  }

  /** Reordering the tokens changes no count. */
  lemma CountsPermutationInvariant(t1: seq<string>, t2: seq<string>, vocab: seq<string>)
    requires multiset(t1) == multiset(t2)
    ensures CountVector(t1, vocab) == CountVector(t2, vocab)
  {
  }

  /** Counts add up over concatenated token lists. */
  lemma CountsAppend(t1: seq<string>, t2: seq<string>, vocab: seq<string>, j: nat)
    requires j < |vocab|
    ensures CountVector(t1 + t2, vocab)[j] == CountVector(t1, vocab)[j] + CountVector(t2, vocab)[j]
  {
    assert multiset(t1 + t2) == multiset(t1) + multiset(t2);
  }

  /**
   Only all-lowercase tokens can ever be counted: dropping the others leaves
   every count as it was. A capitalised "Love" does not count towards "love".
   */
  lemma OnlyLowercaseTokensCount(tokens: seq<string>, vocab: seq<string>)
    ensures CountVector(Filter(tokens, IsLowerCase), vocab) == CountVector(tokens, vocab)
  {
    var kept := Filter(tokens, IsLowerCase);
    forall j | 0 <= j < |vocab|
      ensures CountVector(kept, vocab)[j] == CountVector(tokens, vocab)[j]
    {
      LowerIdempotent(vocab[j]);
    }
  }

  /**
   The discarded strip: a token still carrying its punctuation is not the
   term, so "love." adds nothing to the count for "love".
   */
  lemma PunctuatedTokenNotCounted(tokens: seq<string>, vocab: seq<string>)
    requires tokens == ["i", "love", "this", "love."] && vocab == ["Love"]
    ensures CountVector(tokens, vocab) == [1]
  {
    assert Lower("Love") == "love";
    assert multiset(tokens)["love"] == 1;
  }
}
