/**
 The exclusion set and the two `remove_stop_words` variants. Both scripts
 build the same set: an external English stop-word list (a parameter here)
 plus fixed words, prepositions and punctuation. Both emit, for every
 surviving token in order, its normalised form followed by one space. They
 differ in the membership test: Word_Accociation.py tests the raw token,
 text_pull.py its lowercase form. The tokenizer is a parameter too.
 */
module StopWords {
  import opened Wrappers
  import opened Text
  import opened Strip

  /** Words added to the base list before the prepositions. */
  const ExtraWords: set<string> := {"</s>", "the", "and", "a", "that", "is", "as"}

  /**
   Prepositions excluded even where they carry meaning (one entry is two
   words), in source order, in groups of nine.
   */
  const PrepositionsA: set<string> :=
    {"about", "above", "across", "after", "against", "along", "among", "around", "at"}
  const PrepositionsB: set<string> :=
    {"because", "before", "behind", "below", "beneath", "besides", "beside", "between", "but"}
  const PrepositionsC: set<string> :=
    {"by", "concerning", "despite", "down", "during", "except", "excepting", "for", "from"}
  const PrepositionsD: set<string> :=
    {"in", "inside", "in spite", "into", "like", "near", "of", "off", "on"}
  const PrepositionsE: set<string> :=
    {"onto", "out", "outside", "over", "past", "regarding", "since", "through", "throughout"}
  const PrepositionsF: set<string> :=
    {"to", "toward", "under", "underneath", "up", "upon", "with", "within", "without"}

  const Prepositions: set<string> :=
    PrepositionsA + PrepositionsB + PrepositionsC + PrepositionsD + PrepositionsE + PrepositionsF

  /** The punctuation characters added, in source order ('_' is added twice). */
  const PunctuationChars: seq<char> :=
    ['\'', '"', '.', '/', '\\', '?', '<', '>', '`', '~', '!', '@', '#', '%',
     '^', '&', '*', '(', ')', '-', '_', '_', '+', '=']

  /** The punctuation entries: each is a one-character token. */
  const Punctuation: set<string> := set c | c in PunctuationChars :: [c]

  /** Everything the scripts add to the base stop-word list. */
  const Additions: set<string> := ExtraWords + Prepositions + Punctuation

  /** The exclusion set built from the base stop-word list. */
  function Stops(base: set<string>): set<string> {
    base + Additions
  }

  // Facts about the literal groups, proved one group at a time.

  lemma PrepositionsAFacts() ensures forall w :: w in PrepositionsA ==> |w| >= 2 && w != "The" {}
  lemma PrepositionsBFacts() ensures forall w :: w in PrepositionsB ==> |w| >= 2 && w != "The" {}
  lemma PrepositionsCFacts() ensures forall w :: w in PrepositionsC ==> |w| >= 2 && w != "The" {}
  lemma PrepositionsDFacts() ensures forall w :: w in PrepositionsD ==> |w| >= 2 && w != "The" {}
  lemma PrepositionsEFacts() ensures forall w :: w in PrepositionsE ==> |w| >= 2 && w != "The" {}
  lemma PrepositionsFFacts() ensures forall w :: w in PrepositionsF ==> |w| >= 2 && w != "The" {}

  /** No preposition is a single character or a capitalised word. */
  lemma PrepositionsFacts()
    ensures forall w :: w in Prepositions ==> |w| >= 2 && w != "The"
  {
    PrepositionsAFacts();
    PrepositionsBFacts();
    PrepositionsCFacts();
    PrepositionsDFacts();
    PrepositionsEFacts();
    PrepositionsFFacts();
  }

  /** The punctuation entries are exactly the one-character tokens of the listed characters. */
  lemma PunctuationFacts(c: char)
    ensures [c] in Punctuation <==> c in PunctuationChars
    ensures forall w :: w in Punctuation ==> |w| == 1
  {
    if [c] in Punctuation {
      var d :| d in PunctuationChars && [d] == [c];
      assert [d][0] == [c][0];
    }
  }

  lemma ExtraWordsFacts(c: char)
    ensures [c] in ExtraWords <==> c == 'a'
    ensures "The" !in ExtraWords
  {
  }

  /** Which one-character tokens the fixed additions exclude. */
  lemma OneCharAdditions(c: char)
    ensures [c] in Additions <==> c in PunctuationChars || c == 'a'
  {
    PunctuationFacts(c);
    ExtraWordsFacts(c);
    PrepositionsFacts();
  }

  lemma HyphenAndUnderscoreExcluded(base: set<string>)
    ensures "-" in Stops(base) && "_" in Stops(base)
  {
    PunctuationFacts('-');
    PunctuationFacts('_');
    assert "-" == ['-'] && "_" == ['_'];
  }

  lemma DollarExcludedOnlyByBase(base: set<string>)
    ensures "$" in Stops(base) <==> "$" in base
  {
    StrippedArePunctuation();
    OneCharAdditions('$');
    assert "$" == ['$'];
  }

  lemma StrippedExcluded()
    ensures forall c :: c in StripChars && c != '$' ==> [c] in Additions
  {
    StrippedArePunctuation();
    forall c | c in StripChars && c != '$'
      ensures [c] in Additions
    {
      PunctuationFacts(c);
    }
  }

  /**
   How the punctuation entries relate to the strip chain: "-" and "_" are
   excluded but never stripped, "$" is stripped but excluded only if the base
   list holds it, and every other stripped character is excluded as a
   one-character token.
   */
  lemma ExclusionVersusStrip(base: set<string>)
    ensures "-" in Stops(base) && '-' !in StripChars
    ensures "_" in Stops(base) && '_' !in StripChars
    ensures '$' in StripChars && ("$" in Stops(base) <==> "$" in base)
    ensures forall c :: c in StripChars && c != '$' ==> [c] in Additions
  {
    StrippedArePunctuation();
    HyphenAndUnderscoreExcluded(base);
    DollarExcludedOnlyByBase(base);
    StrippedExcluded();
  }

  lemma StrippedFirstHalf()
    ensures forall i :: 0 <= i < 11 ==> StripChars[i] in PunctuationChars
  {
    assert StripChars[..11] == ['"', '\'', '.', '/', '\\', '?', '<', '>', '`', '~', '!'];
  }

  lemma StrippedSecondHalf()
    ensures forall i :: 11 <= i < 22 && StripChars[i] != '$' ==> StripChars[i] in PunctuationChars
  {
    assert StripChars[11..] == ['@', '#', '$', '%', '^', '&', '*', '(', ')', '+', '='];
  }

  lemma HyphensNotStripped()
    ensures '-' !in StripChars && '_' !in StripChars && '$' in StripChars
  {
  }

  lemma PunctuationLacksDollar()
    ensures '-' in PunctuationChars && '_' in PunctuationChars && '$' !in PunctuationChars
  {
  }

  lemma StrippedListed()
    ensures forall c :: c in StripChars && c != '$' ==> c in PunctuationChars
  {
    StrippedFirstHalf();
    StrippedSecondHalf();
    forall c | c in StripChars && c != '$'
      ensures c in PunctuationChars
    {
      var i :| 0 <= i < |StripChars| && StripChars[i] == c;
    }
  }

  lemma StrippedArePunctuation()
    ensures forall c :: c in StripChars && c != '$' ==> c in PunctuationChars
    ensures '-' in PunctuationChars && '_' in PunctuationChars && '$' !in PunctuationChars
    ensures '-' !in StripChars && '_' !in StripChars && '$' in StripChars
  {
    StrippedListed();
    PunctuationLacksDollar();
    HyphensNotStripped();
  }

  lemma NoCapitalisedAddition()
    ensures "The" !in Additions
  {
    PrepositionsFacts();
    PunctuationFacts('T');
    ExtraWordsFacts('T');
  }

  /** Every literal the scripts add is excluded, and no capitalised word is added. */
  lemma StopsContainsAdditions(base: set<string>)
    ensures base <= Stops(base) && Additions <= Stops(base)
    ensures "the" in Stops(base) && "in spite" in Stops(base) && "</s>" in Stops(base)
    ensures "The" !in Additions
  {
    NoCapitalisedAddition();
    assert "in spite" in PrepositionsD;
    assert "the" in ExtraWords && "</s>" in ExtraWords;
  }

  // ---------------------------------------------------------------------------
  // Emitting the surviving tokens

  /** The text the loop builds: every token normalised and followed by one space. */
  function Emit(ws: seq<string>): (r: string)
    ensures |r| >= |ws|
    ensures r == [] <==> ws == []
    ensures r != [] ==> r[|r| - 1] == ' '
  {
    if ws == [] then [] else Normalise(ws[0]) + " " + Emit(ws[1..])
  }

  lemma {:induction false} EmitAppend(a: seq<string>, b: seq<string>)
    ensures Emit(a + b) == Emit(a) + Emit(b)
    decreases |a|
  {
    if a == [] {
      assert a + b == b;
    } else {
      assert (a + b)[0] == a[0];
      assert (a + b)[1..] == a[1..] + b;
      EmitAppend(a[1..], b);
    }
  }

  lemma EmitOne(w: string)
    ensures Emit([w]) == Normalise(w) + " "
  {
    assert [w][1..] == [];
  }

  lemma EmitEmptyPiece(ws: seq<string>, w: string)
    requires Normalise(w) == []
    ensures Emit(ws + [w]) == Emit(ws) + " "
  {
    EmitAppend(ws, [w]);
    EmitOne(w);
  }

  /** A token that normalises to nothing still leaves its space, so a second space follows. */
  lemma EmptyPieceDoubleSpace(ws: seq<string>, w: string)
    requires ws != [] && Normalise(w) == []
    ensures var e := Emit(ws + [w]); |e| >= 2 && e[|e| - 1] == ' ' && e[|e| - 2] == ' '
  {
    var before := Emit(ws);
    EmitEmptyPiece(ws, w);
    assert |before| >= 1 && before[|before| - 1] == ' ';
    var e := before + " ";
    assert e[|e| - 2] == before[|before| - 1];
  }

  function NormaliseAll(ws: seq<string>): (ns: seq<string>)
    ensures |ns| == |ws|
    ensures forall i :: 0 <= i < |ws| ==> ns[i] == Normalise(ws[i])
  {
    seq(|ws|, i requires 0 <= i < |ws| => Normalise(ws[i]))
  }

  /** Reads space-terminated pieces back; text after the last space makes it fail. */
  function SplitTerminated(s: string): Option<seq<string>>
    decreases |s|
  {
    if s == [] then Some([])
    else
      var k := IndexOf(s, ' ');
      if k == |s| then None
      else
        match SplitTerminated(s[k + 1..])
        case None => None
        case Some(rest) => Some([s[..k]] + rest)
  }

  predicate NoSpaces(ps: seq<string>) {
    forall i :: 0 <= i < |ps| ==> ' ' !in ps[i]
  }

  /** A piece without spaces followed by a space splits off first. */
  lemma SplitTerminatedCons(p: string, rest: string)
    requires ' ' !in p
    ensures SplitTerminated(p + " " + rest)
         == if SplitTerminated(rest).Some? then Some([p] + SplitTerminated(rest).value) else None
  {
    IndexOfAfter(p, ' ', rest);
    var s := p + " " + rest;
    assert s[|p| + 1..] == rest;
    assert s[..|p|] == p;
  }

  /** Pieces each followed by one space. */
  function Terminated(ps: seq<string>): string {
    if ps == [] then [] else ps[0] + " " + Terminated(ps[1..])
  }

  /** Space-terminated pieces without spaces of their own split back into the pieces. */
  lemma {:induction false} SplitTerminatedPieces(ps: seq<string>)
    requires NoSpaces(ps)
    ensures SplitTerminated(Terminated(ps)) == Some(ps)
    decreases |ps|
  {
    if ps != [] {
      var rest := ps[1..];
      assert NoSpaces(rest) by {
        forall i | 0 <= i < |rest|
          ensures ' ' !in rest[i]
        {
          assert rest[i] == ps[i + 1];
        }
      }
      SplitTerminatedCons(ps[0], Terminated(rest));
      SplitTerminatedPieces(rest);
      assert [ps[0]] + rest == ps;
    }
  }

  /** The emitted text is the normalised tokens, each followed by a space. */
  lemma {:induction false} EmitTerminated(ws: seq<string>)
    ensures Emit(ws) == Terminated(NormaliseAll(ws))
    decreases |ws|
  {
    if ws != [] {
      EmitTerminated(ws[1..]);
      assert NormaliseAll(ws)[1..] == NormaliseAll(ws[1..]);
    }
  }

  /**
   As long as no normalised token holds a space, splitting the emitted text
   at its spaces gives back exactly the normalised tokens, in order: one
   space-terminated piece per surviving token.
   */
  lemma SplitEmit(ws: seq<string>)
    requires NoSpaces(NormaliseAll(ws))
    ensures SplitTerminated(Emit(ws)) == Some(NormaliseAll(ws))
  {
    EmitTerminated(ws);
    SplitTerminatedPieces(NormaliseAll(ws));
  }

  // ---------------------------------------------------------------------------
  // The two filters

  /** Word_Accociation.py keeps a token unless the raw token is in the set. */
  function ExactKeep(stops: set<string>): string -> bool {
    w => w !in stops
  }

  /** text_pull.py keeps a token unless its lowercase form is in the set. */
  function FoldedKeep(stops: set<string>): string -> bool {
    w => Lower(w) !in stops
  }

  /**
   `remove_stop_words` of Word_Accociation.py, given the exclusion set it
   builds: the output is empty exactly when every token is excluded, and
   otherwise ends with a space.
   */
  function RemoveStopWordsExact(text: string, stops: set<string>, tokenize: string -> seq<string>): (r: string)
    ensures r == [] || r[|r| - 1] == ' '
    ensures r == [] <==> forall i :: 0 <= i < |tokenize(text)| ==> tokenize(text)[i] in stops
  {
    var ws := tokenize(text);
    var kept := Filter(ws, ExactKeep(stops));
    FilterEmpty(ws, ExactKeep(stops));
    Emit(kept)
  }

  /** `remove_stop_words` of text_pull.py, given the exclusion set it builds. */
  function RemoveStopWordsFolded(text: string, stops: set<string>, tokenize: string -> seq<string>): (r: string)
    ensures r == [] || r[|r| - 1] == ' '
    ensures r == [] <==> forall i :: 0 <= i < |tokenize(text)| ==> Lower(tokenize(text)[i]) in stops
  {
    var ws := tokenize(text);
    var kept := Filter(ws, FoldedKeep(stops));
    FilterEmpty(ws, FoldedKeep(stops));
    Emit(kept)
  }

  /** Filtering and emitting one more token appends that token's piece, or nothing. */
  lemma EmitFilterStep(ws: seq<string>, w: string, keep: string -> bool)
    ensures Emit(Filter(ws + [w], keep)) == Emit(Filter(ws, keep)) + if keep(w) then Normalise(w) + " " else ""
  {
    FilterAppend(ws, [w], keep);
    FilterOne(w, keep);
    EmitAppend(Filter(ws, keep), Filter([w], keep));
    EmitOne(w);
  }

  /** A kept first token contributes the first piece of the output. */
  lemma EmitFilterHead(ws: seq<string>, keep: string -> bool)
    requires ws != [] && keep(ws[0])
    ensures Emit(Filter(ws, keep)) == Normalise(ws[0]) + " " + Emit(Filter(ws[1..], keep))
  {
    HeadTail(ws);
    FilterAppend([ws[0]], ws[1..], keep);
    FilterOne(ws[0], keep);
    EmitAppend([ws[0]], Filter(ws[1..], keep));
    EmitOne(ws[0]);
  }

  /**
   A first surviving token made only of stripped characters leaves just its
   space, so the filtered text starts with a space.
   */
  lemma FoldedLeadingSpace(text: string, stops: set<string>, tokenize: string -> seq<string>)
    requires var ws := tokenize(text); |ws| > 0 && Lower(ws[0]) !in stops && Normalise(ws[0]) == []
    ensures var r := RemoveStopWordsFolded(text, stops, tokenize); |r| >= 1 && r[0] == ' '
  {
    EmitFilterHead(tokenize(text), FoldedKeep(stops));
  }

  lemma EmitFilterPrefix(ws: seq<string>, i: nat, keep: string -> bool)
    requires i < |ws|
    ensures Emit(Filter(ws[..i + 1], keep))
         == Emit(Filter(ws[..i], keep)) + (if keep(ws[i]) then Normalise(ws[i]) + " " else "")
  {
    assert ws[..i + 1] == ws[..i] + [ws[i]];
    EmitFilterStep(ws[..i], ws[i], keep);
  }

  /**
   The loop of text_pull.py: append the normalised token and a space unless
   the lowercased token is excluded. It builds exactly the filtered text.
   */
  method RemoveStopWordsFoldedLoop(text: string, stops: set<string>, tokenize: string -> seq<string>)
    returns (out: string)
    ensures out == RemoveStopWordsFolded(text, stops, tokenize)
  {
    var ws := tokenize(text);
    out := "";
    var i := 0;
    while i < |ws|
      invariant 0 <= i <= |ws|
      invariant out == Emit(Filter(ws[..i], FoldedKeep(stops)))
    {
      EmitFilterPrefix(ws, i, FoldedKeep(stops));
      if Lower(ws[i]) !in stops {
        out := out + (Normalise(ws[i]) + " ");
      }
      i := i + 1;
    }
    assert ws[..i] == ws;
  }

  lemma EmitPrefix(ws: seq<string>, i: nat)
    requires i < |ws|
    ensures Emit(ws[..i + 1]) == Emit(ws[..i]) + (Normalise(ws[i]) + " ")
  {
    assert ws[..i + 1] == ws[..i] + [ws[i]];
    EmitAppend(ws[..i], [ws[i]]);
    EmitOne(ws[i]);
  }

  /**
   The loop of Word_Accociation.py: first the tokens not in the set, then
   each of them normalised and followed by a space. It builds exactly the
   filtered text.
   */
  method RemoveStopWordsExactLoop(text: string, stops: set<string>, tokenize: string -> seq<string>)
    returns (out: string)
    ensures out == RemoveStopWordsExact(text, stops, tokenize)
  {
    var filtered := Filter(tokenize(text), ExactKeep(stops));
    out := "";
    var i := 0;
    while i < |filtered|
      invariant 0 <= i <= |filtered|
      invariant out == Emit(filtered[..i])
    {
      EmitPrefix(filtered, i);
      out := out + (Normalise(filtered[i]) + " ");
      i := i + 1;
    }
    assert filtered[..i] == filtered;
  }

  /**
   A token whose lowercase form is excluded never reaches the text_pull.py
   output; every other token does, as often as it occurs, in order.
   */
  lemma FoldedSurvivors(ws: seq<string>, stops: set<string>)
    ensures var kept := Filter(ws, FoldedKeep(stops));
      && IsSubsequence(kept, ws)
      && (forall i :: 0 <= i < |kept| ==> Lower(kept[i]) !in stops)
      && (forall t :: multiset(kept)[t] == if Lower(t) in stops then 0 else multiset(ws)[t])
  {
    FilterIsSubsequence(ws, FoldedKeep(stops));
  }

  /** Same for Word_Accociation.py, with the raw token tested. */
  lemma ExactSurvivors(ws: seq<string>, stops: set<string>)
    ensures var kept := Filter(ws, ExactKeep(stops));
      && IsSubsequence(kept, ws)
      && (forall i :: 0 <= i < |kept| ==> kept[i] !in stops)
      && (forall t :: multiset(kept)[t] == if t in stops then 0 else multiset(ws)[t])
  {
    FilterIsSubsequence(ws, ExactKeep(stops));
  }

  /**
   What Word_Accociation.py's filter writes, read back at its spaces: the
   surviving tokens, normalised, in order. The survivors are the tokens not
   in the set, each as often as it occurs. This holds as long as no
   normalised survivor holds a space.
   */
  lemma ExactOutputReadBack(text: string, stops: set<string>, tokenize: string -> seq<string>)
    requires NoSpaces(NormaliseAll(Filter(tokenize(text), ExactKeep(stops))))
    ensures var kept := Filter(tokenize(text), ExactKeep(stops));
      && SplitTerminated(RemoveStopWordsExact(text, stops, tokenize)) == Some(NormaliseAll(kept))
      && IsSubsequence(kept, tokenize(text))
      && (forall t :: multiset(kept)[t] == if t in stops then 0 else multiset(tokenize(text))[t])
  {
    SplitEmit(Filter(tokenize(text), ExactKeep(stops)));
    ExactSurvivors(tokenize(text), stops);
  }

  /** The same for text_pull.py, where the survivors are the tokens whose lowercase form is not in the set. */
  lemma FoldedOutputReadBack(text: string, stops: set<string>, tokenize: string -> seq<string>)
    requires NoSpaces(NormaliseAll(Filter(tokenize(text), FoldedKeep(stops))))
    ensures var kept := Filter(tokenize(text), FoldedKeep(stops));
      && SplitTerminated(RemoveStopWordsFolded(text, stops, tokenize)) == Some(NormaliseAll(kept))
      && IsSubsequence(kept, tokenize(text))
      && (forall t :: multiset(kept)[t] == if Lower(t) in stops then 0 else multiset(tokenize(text))[t])
  {
    SplitEmit(Filter(tokenize(text), FoldedKeep(stops)));
    FoldedSurvivors(tokenize(text), stops);
  }

  /**
   A single token that is not excluded as written but is excluded once
   lowercased: Word_Accociation.py keeps it, text_pull.py drops it.
   */
  lemma CaseDecidesExclusion(text: string, stops: set<string>, tokenize: string -> seq<string>)
    requires |tokenize(text)| == 1
    requires tokenize(text)[0] !in stops && Lower(tokenize(text)[0]) in stops
    ensures RemoveStopWordsExact(text, stops, tokenize) == Normalise(tokenize(text)[0]) + " "
    ensures RemoveStopWordsFolded(text, stops, tokenize) == ""
  {
    var w := tokenize(text)[0];
    assert tokenize(text) == [w];
    FilterOne(w, ExactKeep(stops));
    FilterOne(w, FoldedKeep(stops));
    EmitOne(w);
  }

  /**
   "The" is the case in point: only "the" is in the set, so by
   CaseDecidesExclusion a text whose only token is "The" gives "the " in
   Word_Accociation.py and nothing in text_pull.py.
   */
  lemma CapitalisedStopWord(base: set<string>, w: string)
    requires "The" !in base && w == "The"
    ensures w !in Stops(base) && Lower(w) in Stops(base)
    ensures Normalise(w) == "the"
  {
    OnlyLowercaseThe(base);
    NormaliseThe(w);
  }

  lemma OnlyLowercaseThe(base: set<string>)
    requires "The" !in base
    ensures "The" !in Stops(base) && "the" in Stops(base)
  {
    StopsContainsAdditions(base);
  }

  lemma NormaliseThe(w: string)
    requires w == "The"
    ensures Lower(w) == "the" && Normalise(w) == "the"
  {
    assert Lower(w) == "the";
    NormaliseOnlyLowercases(w);
  }
}
