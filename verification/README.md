# PitchforkTextMining: the text pipeline in Dafny

This project models the deterministic core of the PitchforkTextMining
scripts, which turn a table of album reviews into machine-learning input:

- **Word_Accociation.py** builds a term-count table. Each review row becomes:
  - an identifier `rVpch__<counter>`;
  - seven metadata cells, each in Python bytes notation (`b'...'`);
  - one count per vocabulary term.

  The counts are taken over the tokens of the fastText label, followed by a space and the review body with its stop words removed.
- **text_pull.py** writes two tables in step:
  - a text table, holding the label, the filtered body and the identifier;
  - a metadata table, holding the identifier and the same seven cells.

  Its stop-word filter tests the lowercase form of a token, not the raw token.
- **pitchfork.py** scrapes the review index. Two of its pure rules are modelled:
  - Which review href becomes the "Review Link" column. The link is carried from one review to the next and across pages, and a page whose first review finds no link yet is abandoned with one counted error.
  - How genre names are joined with `~`.

The modules follow the pipeline:

| module | file | what it holds |
|---|---|---|
| `Wrappers` | wrappers.dfy | `Option` |
| `Text` | text.dfy | ASCII lowercasing, Python's clipping slice `s[:n]`, `Filter`, `IndexOf`, lexicographic order |
| `Ascii` | ascii.dfy | `remove_non_ascii`; CPython's `repr` of a bytes object, with a decoder proving it loses nothing |
| `Strip` | strip.dfy | `str.strip(c)` and the 22-step strip chain that normalises a token |
| `StopWords` | stopwords.dfy | the added exclusion words; the case-sensitive and lowercase stop-word filters, as functions and as loops |
| `Labels` | labels.dfy | `"{:05}".format`; the identifier and the label |
| `Vocabulary` | vocabulary.dfy | reading the first comma field of every line into a set |
| `Counts` | counts.dfy | the term-count vector, as the nested loop and as a frequency map |
| `Rows` | rows.dfy | the metadata cells, and the row loop that skips the header and stops at a short row |
| `WordCounts` | word_counts.dfy | the output table of Word_Accociation.py |
| `TextPull` | text_pull.dfy | the two output tables of text_pull.py |
| `Links` | links.dfy | the href classifier, the link column over pages, and the genre join |

The NLTK tokenizer is a parameter `tokenize: string -> seq<string>`. The NLTK
English stop-word list is a parameter `base: set<string>`. The exclusion set
the scripts use is `Stops(base)`: `base` plus the words, prepositions and
punctuation added in the source, which are spelled out as constants. The
drivers take the exclusion set as `stops`, and `Stops(base)` is what the
scripts pass. Rows of the input table are sequences of strings.

Behaviours of the code worth knowing:

- **Normalising is not idempotent.** The strip chain runs each character once, in list order. `"a.="` normalises to `"a."` and then to `"a"` (`Strip.NormaliseNotIdempotent`).
- **The first data row gets counter 2, not 1.** The counter also counts the header row that the loop skips (`WordCounts.RunRows`, `TextPull.RunRows`, `Labels.IdGrows`).
- **The label ends with a space**, and the text cell adds a second one (`Labels.Label`, `TextPull.TextCell`). When the first surviving token normalises to nothing, that token's own space makes a third (`TextPull.EmptyFirstPieceThirdSpace`).
- **Counts compare raw tokens with the lowercased term.** The strip computed inside the counting loop is discarded, so `"love."` does not count for `Love` (`Counts.PunctuatedTokenNotCounted`). The counted text includes the label.
- **A data row with fewer than eight fields raises IndexError.** The rows written before it stay written, and the run ends (`Rows.ProcessTableOutcome`).
- **The two filters differ, as the code has them.** Word_Accociation.py tests the raw token, so a capitalised stop word survives. text_pull.py tests the lowercase form (`StopWords.CaseDecidesExclusion`, `StopWords.CapitalisedStopWord`).
- **`$` is stripped but not among the added punctuation.** It is excluded only if the base list holds it. `-` and `_` are excluded but never stripped (`StopWords.ExclusionVersusStrip`).

## Model

| member | source | states |
|---|---|---|
| Ascii.RemoveNonAscii | Word_Accociation.py:115-116 | the result is all ASCII and a subsequence of the input; every ASCII character keeps its multiplicity and every other one is gone; ASCII input comes back unchanged |
| Ascii.RemoveNonAsciiIdempotent | text_pull.py:119-120 | sanitising twice is sanitising once |
| Ascii.RemoveNonAsciiCafe | text_pull.py:119-120 | `"café"` becomes `"caf"`: the accented letter is dropped, not transliterated |
| Ascii.QuoteFor | Word_Accociation.py:148 | the delimiter is a quote character that occurs in the text only when both quote kinds do; it is the single quote whenever the text has no apostrophe or also has a double quote |
| Ascii.EscapeChar | Word_Accociation.py:148 | one character becomes one to four printable characters, and exactly one only when it is left as it is |
| Ascii.BytesRepr | Word_Accociation.py:148 | `str(b.encode('ascii'))` is `b` and a quote, ends with the same quote, is printable, and is at least three characters longer than the text |
| Ascii.UnescapeEscapeBody | Word_Accociation.py:148 | undoing the escapes recovers the text, for either quote |
| Ascii.BytesReprRoundTrip | Word_Accociation.py:148 | decoding the bytes notation of ASCII text gives the text back |
| Ascii.MetaCell | Word_Accociation.py:148-155 | a metadata cell starts with `b` and a quote and is printable, whatever the field |
| Ascii.MetaCellRoundTrip | Word_Accociation.py:148-155 | a metadata cell decodes to the sanitised field |
| Ascii.MetaCellInjective | text_pull.py:149-156 | two fields give the same cell exactly when they sanitise to the same text |
| Ascii.BytesReprEmpty | Word_Accociation.py:148 | empty text is written `b''` |
| Ascii.BytesReprApostrophe | Word_Accociation.py:148 | `it's` is written `b"it's"` |
| Ascii.BytesReprBothQuotes | Word_Accociation.py:148 | text with both quote kinds keeps single quotes and escapes the apostrophe |
| Strip.TrimLeftSuffix | Word_Accociation.py:110 | removing leading copies of `c` leaves a suffix, and everything removed was `c` |
| Strip.TrimRightPrefix | Word_Accociation.py:110 | removing trailing copies of `c` leaves a prefix, and everything removed was `c` |
| Strip.StripChar | Word_Accociation.py:110 | `strip(c)` leaves no `c` at either end, and changes nothing when neither end is `c` |
| Strip.StripCharInfix | Word_Accociation.py:110 | `strip(c)` returns a contiguous infix, and everything cut off on either side was `c` |
| Strip.StripAllInfix | Word_Accociation.py:110 | the whole chain returns a contiguous infix, and everything cut off is a listed character |
| Strip.StripAllSplit | Word_Accociation.py:110 | running the chain on two lists in a row is running it on their concatenation |
| Strip.StripAllKeepsUnlisted | Word_Accociation.py:110 | text whose two ends are both unlisted passes through the chain unchanged |
| Strip.StripCharsShape | Word_Accociation.py:110 | the chain has 22 steps, and the last one strips `=` |
| Strip.NormaliseEnds | Word_Accociation.py:110 | a normalised token is no longer than the token and never starts or ends with `=` |
| Strip.NormaliseInfix | Word_Accociation.py:110 | a normalised token is an infix of the lowercased token, cut only at listed characters |
| Strip.NormaliseIsLowerCase | text_pull.py:114 | a normalised token has no ASCII capital |
| Strip.NormaliseOnlyLowercases | Word_Accociation.py:110 | a token with both ends outside the strip list is only lowercased |
| Strip.NormaliseNotIdempotent | Word_Accociation.py:110 | `"a.="` normalises to `"a."`, which normalises to `"a"`: one pass is not a fixed point |
| StopWords.PrepositionsFacts | Word_Accociation.py:23-76 | every added preposition is at least two characters long, and none is `The` |
| StopWords.PunctuationFacts | Word_Accociation.py:79-102 | the added punctuation is exactly the one-character strings of the listed characters |
| StopWords.ExtraWordsFacts | Word_Accociation.py:14-20 | among the added words only `a` is a single character, and `The` is not one of them |
| StopWords.OneCharAdditions | Word_Accociation.py:14-102 | a one-character string is added exactly when its character is listed punctuation or `a` |
| StopWords.StopsContainsAdditions | Word_Accociation.py:11-102 | the exclusion set holds the base list and every added literal (`the`, `in spite`, `</s>` among them), and no capitalised `The` is added |
| StopWords.ExclusionVersusStrip | Word_Accociation.py:79-110 | `-` and `_` are excluded but never stripped; `$` is stripped and excluded only when the base list has it; every other stripped character is excluded |
| StopWords.Emit | Word_Accociation.py:109-111 | the built text is empty exactly when no token survives, otherwise ends with a space, and has at least one character per token |
| StopWords.EmitAppend | text_pull.py:110-115 | the text built from two token runs is the two texts one after the other |
| StopWords.SplitEmit | text_pull.py:110-117 | when no normalised token holds a space, splitting the text at its spaces gives back exactly the normalised tokens in order, one piece per token |
| StopWords.EmptyPieceDoubleSpace | text_pull.py:114-115 | a token that normalises to nothing still leaves its space, so two spaces follow one another |
| StopWords.RemoveStopWordsExact | Word_Accociation.py:104-113 | the result is empty exactly when every token is in the set, and otherwise ends with a space |
| StopWords.RemoveStopWordsFolded | text_pull.py:104-117 | the result is empty exactly when every token's lowercase form is in the set, and otherwise ends with a space |
| StopWords.ExactOutputReadBack | Word_Accociation.py:104-113 | when no normalised survivor holds a space, splitting the output at its spaces gives the normalised survivors in order, and the survivors are the tokens not in the set, in order, each as often as it occurs |
| StopWords.FoldedOutputReadBack | text_pull.py:104-117 | when no normalised survivor holds a space, splitting the output at its spaces gives the normalised survivors in order, and the survivors are the tokens whose lowercase form is not in the set, in order, each as often as it occurs |
| StopWords.RemoveStopWordsExactLoop | Word_Accociation.py:106-111 | filtering first and then appending each survivor and a space builds the filtered text |
| StopWords.RemoveStopWordsFoldedLoop | text_pull.py:110-115 | testing each token inside the loop builds the filtered text |
| StopWords.ExactSurvivors | Word_Accociation.py:106 | the survivors keep their order, none is in the set, and every token not in the set survives as often as it occurs |
| StopWords.FoldedSurvivors | text_pull.py:111-112 | the survivors keep their order, no survivor's lowercase form is in the set, and every other token survives as often as it occurs |
| StopWords.CaseDecidesExclusion | Word_Accociation.py:106 | a one-token text whose token is not in the set but whose lowercase form is: the case-sensitive filter keeps it, normalised and followed by a space, and the lowercase filter returns the empty string |
| StopWords.CapitalisedStopWord | Word_Accociation.py:106-110 | when the base list lacks `The`, the raw test does not exclude it, the lowercase test does, and it is written `the` |
| StopWords.FoldedLeadingSpace | text_pull.py:114-115 | when the first surviving token normalises to nothing, the filtered text starts with a space |
| Labels.ZeroPad | Word_Accociation.py:157 | zero padding gives digits only, as many as the width, or more when the number needs more |
| Labels.ZeroPadRoundTrip | Word_Accociation.py:157 | reading the padded digits gives the number back |
| Labels.IdWrite | Word_Accociation.py:157 | the identifier is `rVpch__` and digits, 12 characters long exactly when the counter is below 100000 |
| Labels.IdRoundTrip | Word_Accociation.py:157 | parsing an identifier gives its counter back |
| Labels.IdInjective | Word_Accociation.py:157 | two counters give the same identifier exactly when they are equal |
| Labels.IdOrder | Word_Accociation.py:157 | below 100000, identifiers have length 12, and their string order is their counter order |
| Labels.IdGrows | Word_Accociation.py:144-157 | the first data row is `rVpch__00002`, and counter 100000 gives a 13-character identifier |
| Labels.Label | Word_Accociation.py:159 | the label is `__label__`, the identifier and one space |
| Vocabulary.FirstField | Word_Accociation.py:133-134 | `row.split(',')[0]` is a comma-free prefix of the line that ends at the first comma or at the end of the line |
| Vocabulary.FirstFieldUnique | Word_Accociation.py:133-134 | any comma-free prefix that ends at a comma or at the end of the line is the first field |
| Vocabulary.LoadVocabulary | Word_Accociation.py:129-137 | the vocabulary has no repeats, is no longer than the file, and holds exactly the first fields of the lines |
| Vocabulary.VocabularyIsWordset | Word_Accociation.py:129-137 | such a vocabulary lists the set of first fields, once each |
| Vocabulary.EmptyFileNoTerms | Word_Accociation.py:129-134 | an empty file gives no terms |
| Vocabulary.SameFirstFieldOneTerm | Word_Accociation.py:129-134 | two lines that agree up to their first comma give one term |
| Counts.CountVector | Word_Accociation.py:177-183 | one count per term in vocabulary order, each the number of tokens equal to the lowercased term, at most the number of tokens |
| Counts.CountNested | Word_Accociation.py:177-183 | the nested loop computes the count vector |
| Counts.FrequencyCounts | Word_Accociation.py:177-183 | one pass building a frequency table, then one lookup per term, computes the same vector |
| Counts.CountsPermutationInvariant | Word_Accociation.py:177-183 | reordering the tokens changes no count |
| Counts.CountsAppend | Word_Accociation.py:177-183 | counts over concatenated token lists add up |
| Counts.OnlyLowercaseTokensCount | Word_Accociation.py:181 | dropping every token with a capital changes no count |
| Counts.PunctuatedTokenNotCounted | Word_Accociation.py:180-182 | with tokens `i love this love.`, the count for `Love` is 1, because the strip is discarded |
| Rows.MetaCells | Word_Accociation.py:148-154 | seven cells, each starting with `b` and decoding to its sanitised field |
| Rows.MetaCellsInjective | text_pull.py:149-155 | two rows give the same metadata cells exactly when their first seven fields sanitise alike |
| Rows.ReviewBody | Word_Accociation.py:155 | the text handed to the stop-word filter is the bytes notation of the sanitised body, not the body |
| Rows.FirstShort | Word_Accociation.py:143-155 | every row before the index has eight fields, and the row at the index, if any, does not |
| Rows.ProcessRows | Word_Accociation.py:143-185 | one output per row up to the first short row, each from its row and its own counter; the run completes exactly when there is no short row |
| Rows.ProcessTableReaches | Word_Accociation.py:143-155 | when data rows 1 to k all have eight fields, the loop produces at least k outputs |
| Rows.ProcessTableAt | Word_Accociation.py:143-155 | when data rows 1 to k all have eight fields, output k - 1 exists and comes from input row k with counter k + 1 |
| Rows.ProcessTableRows | Word_Accociation.py:143-147 | output k comes from input row k + 1, which has eight fields, with counter k + 2 |
| Rows.ProcessTableOutcome | Word_Accociation.py:143-155 | the run completes exactly when every data row has eight fields; on IndexError the row after the last output is short |
| WordCounts.HeaderRow | Word_Accociation.py:127-141 | the header is the eight metadata names followed by the terms, term j in column 8 + j |
| WordCounts.DataRow | Word_Accociation.py:157-183 | a row holds the identifier, the seven metadata cells, and in column 8 + j the number of tokens of the labelled text equal to the lowercased term j |
| WordCounts.Run | Word_Accociation.py:139-185 | the table starts with the header and completes as the row loop does |
| WordCounts.RunRow | Word_Accociation.py:143-185 | when data rows 1 to k all have eight fields, the table has a row k, and it is the data row of input row k with counter k + 1 |
| WordCounts.RunRows | Word_Accociation.py:143-185 | when data rows 1 to k all have eight fields, table row k is as wide as the header, starts with the identifier of counter k + 1, and counts in column 8 + j the term that heads column 8 + j |
| WordCounts.RunOutcome | Word_Accociation.py:143-185 | the table has one row per input row exactly when every data row has eight fields, and otherwise stops before the first short row |
| WordCounts.EmptyInputHeaderOnly | Word_Accociation.py:139-143 | an empty input still gets its header row |
| TextPull.TextCell | text_pull.py:158-162 | the text cell starts with `__label__rVpch__`, holds the identifier at position 9, then two spaces, then exactly the filtered body |
| TextPull.Pair | text_pull.py:164-176 | the text row is two cells with the identifier second, and the metadata row eight cells with the identifier first |
| TextPull.FilesOf | text_pull.py:137-179 | both tables start with their header and have one more row than the loop produced |
| TextPull.Run | text_pull.py:134-179 | both tables have the same number of rows and start with their headers |
| TextPull.RunRows | text_pull.py:144-179 | when data rows 1 to k all have eight fields, both tables have a row k; it comes from input row k with identifier k + 1, with the widths of the two headers |
| TextPull.RunOutcome | text_pull.py:144-156 | the tables are complete exactly when every data row has eight fields, and otherwise stop before the first short row |
| TextPull.IdsIncreasing | text_pull.py:144-166 | once data rows 1 to j all have eight fields, identifiers in rows 1 to j of the text table read back as their counters, never repeat, and below 100000 increase in string order |
| TextPull.EmptyFirstPieceThirdSpace | text_pull.py:160-162 | a first surviving token that normalises to nothing puts a third space after the identifier |
| Links.NextGoodLink | pitchfork.py:61-70 | an href that starts with `/reviews/albums/`, starts with neither the query prefix nor the popular-listing prefix, and is not `/reviews/albums/` itself replaces the link with `https://pitchfork.com` followed by the href; every other href leaves the link as it was |
| Links.IndexUrlOnlyFromAlbumsPath | pitchfork.py:61-67 | the full link is the album index exactly when the href is `/reviews/albums/`, which is when the third branch is taken |
| Links.AcceptedIff | pitchfork.py:63-70 | an href is accepted exactly when it starts with `/reviews/albums/`, does not start with the query or popular prefix, and is not that path itself |
| Links.ListingsNeverAccepted | pitchfork.py:63-68 | query, popular-listing and index hrefs never replace the link |
| Links.AcceptedLinkShape | pitchfork.py:61-70 | an accepted link starts with `https://pitchfork.com/reviews/albums/` and is strictly longer |
| Links.LatestLinkSource | pitchfork.py:69-70 | the current link is the one carried in, or the link of some accepted href |
| Links.PageShape | pitchfork.py:24-77 | a page fails exactly when no link exists yet and its first href is not accepted, and then writes nothing; otherwise it writes one row per review and carries on the latest link |
| Links.PageLinkAt | pitchfork.py:61-73 | the row written for review k holds the link current after review k |
| Links.StaleLinkRepeated | pitchfork.py:63-73 | on a page that does not fail at its first review, a rejected href repeats the previous review's link |
| Links.NeverFailsOnceLinked | pitchfork.py:69-77 | once a link exists, no later review fails |
| Links.PagesNoErrorsOnceLinked | pitchfork.py:21-77 | once a link exists, no later page counts an error |
| Links.ErrorsBeforeFirstLink | pitchfork.py:21-77 | starting without a link, the error count is the number of non-empty pages before the first page whose first review is accepted |
| Links.GenreNameNoTilde | pitchfork.py:48 | a name the genre pattern can capture never holds `~` |
| Links.JoinSeparators | pitchfork.py:49 | the joined string has one `~` fewer than there are genres |
| Links.SplitJoin | pitchfork.py:48-49 | splitting the joined string at `~` gives a non-empty genre list back |
| Links.EmptyJoinNotInvertible | pitchfork.py:48-49 | no genres and one empty genre join to the same empty string |

## Left out

- The NLTK tokenizer and stop-word corpus are foreign library calls. They are the parameters `tokenize` and `base`.
- CSV reading and writing, `codecs`, and the files opened are I/O. Input rows are sequences of strings, and the tables are sequences of rows. The UTF-16 decoding is not modelled.
- pitchfork.py's HTTP requests, BeautifulSoup parsing and regular expressions are not modelled:
  - The hrefs of each page are an input.
  - The genre names captured by the pattern at line 48 are an input, described by `Links.GenreName`.
  - The other columns of a scraped row are not modelled.
  - Errors other than the missing link (network, a missing tag) are not modelled.
- The variables `genrestr`, `reviewer` and `publication_date` are set in a loop that may not run. A stale or missing value there is not modelled.
- Timing, elapsed-time arithmetic (floating point) and progress prints are left out. They do not affect the output.
- Python's `str.lower` beyond ASCII is left out. `Text.Lower` folds only `A` to `Z`. The review text is ASCII-sanitised before it is filtered, so this is faithful there.
- The iteration order of Python's `set` is not modelled. `WordCounts` takes any sequence of distinct terms as the vocabulary, in the order used for both the header and the counts. `Vocabulary.LoadVocabulary` lists terms in first-seen order.
- pitchfork_text.py is not part of this model.
- StopWords.CapitalisedStopWord: states the facts that decide the outcome for `The` rather than running both filters on a concrete tokenizer. `StopWords.CaseDecidesExclusion` then gives the outputs for any such token.
- Links.SplitJoin: holds for non-empty lists only, because `"".split('~')` is `['']`. `Links.EmptyJoinNotInvertible` states that case.
- StopWords.SplitEmit: requires that no normalised token holds a space. NLTK's tokenizer never yields one, but the abstract tokenizer might.
- Labels.IdOrder: holds for counters below 100000 only. From there on identifiers grow to 13 characters and string order no longer follows counter order.
