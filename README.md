# Corpus ingestion and vocabulary of the Akira chatbot, in Dafny

This project models the data pipeline in `languageprocessing/langproc.py`, which
turns the Cornell movie-dialogs corpus into training pairs and a vocabulary.
The model proves what the pipeline computes:

- **Record loader** (`loadlns`, module `Records`). Each line of `movie_lines.txt`
  is split on `" +++$+++ "`. Its pieces are bound to the field names, and the
  record is stored under its `lineID`. A later line with the same `lineID`
  overwrites an earlier one. A line with fewer pieces than fields raises
  `IndexError`. Once a line with enough pieces is read, a field list without
  `lineID` raises `KeyError`; an empty file gives `{}` whatever the fields.
- **Conversation loader** (`loadconv`, module `Conversations`).
  - Each line of `movie_conversations.txt` is parsed the same way.
  - The `L[0-9]+` scanner recovers the ids from the `utteranceIDs` field.
  - Each id is resolved to its record, or raises `KeyError`.
  - The code appends the conversation object to the output inside the loop over
    the ids. So a line with k ids contributes the same object k times, and a
    line with no ids contributes nothing. This behaviour is reproduced as
    written.
  - Because Python appends the same dictionary each time, the model uses a
    class, `ConversationObject`. The method's contract states which output
    positions hold the same object.
- **Pair extractor** (`extractsentencepairs`, module `Pairs`). Every two
  consecutive records of a conversation give a query/reply pair of their
  stripped texts. A pair is kept only when both texts are non-empty. Pairs
  never cross a conversation boundary. A record without `text` raises
  `KeyError`, but only in a conversation of two or more records: a
  conversation with fewer records is never read.
- **Normalizer** (`normalizestring`, module `Normalize`). The model covers
  ASCII lower-casing and `str.strip()`, then the two `re.sub` steps. The source
  function never returns its result; this is recorded under Findings.
- **Vocabulary** (`class Vocabulary`, module `Vocab`).
  - The three sentinels take indices 0 to 2.
  - Words receive dense indices from 3 in the order they are first seen, and
    every occurrence is counted.
  - `addsentence` adds each piece of `sentence.split(' ')`.
  - `trim` is a no-op once trimmed. Otherwise it rebuilds the vocabulary from
    the words counted at least `min_threshold` times, in first-seen order, each
    with count 1.
  - On an empty vocabulary, `trim` raises the `ZeroDivisionError` of its
    retained-fraction message, after setting the flag.

Python's string built-ins that the pipeline uses live in module `Text`:
- `str.split` with an explicit separator;
- `str.strip()` with Python's whitespace set;
- `str.lower()` on ASCII.

Python exceptions are modelled as `Result` values carrying a `Fault`. They are
not modelled as preconditions.

Three behaviours one might expect of such a pipeline do not hold of the
code, and the model follows the code:
- An unresolved id raises Python's `KeyError`. There is no dedicated error kind.
- The normalizer is not idempotent:
  `Normalize.NormalizeNotIdempotent` shows `"a1"` normalizing to `"a "` and that
  normalizing to `"a"`.
  - The cause is that the strip runs before the substitutions.
  - The two substitutions on their own are idempotent (`Normalize.SubstituteIdempotent`).
- `trim` is idempotent only through the `trimmed` flag, which
  `Vocab.Vocabulary.Trim` states. Rebuilding again at a threshold of at most 1
  is stable (`Vocab.TrimmedStable`). Rebuilding again at a higher threshold
  would drop every word, because all counts are then 1.

## Model

| member | source | states |
|---|---|---|
| Text.Split | languageprocessing/langproc.py:43 | `line.split(sep)` always yields at least one piece |
| Text.SplitJoin | languageprocessing/langproc.py:43 | joining the pieces with the delimiter gives back the line (no text is lost or reordered) |
| Text.SplitPiecesAvoidSeparator | languageprocessing/langproc.py:43 | no piece contains the delimiter |
| Text.SplitLeftmost | languageprocessing/langproc.py:43 | every piece but the last, followed by all but the last character of the delimiter, still holds no delimiter: each split is at the leftmost occurrence, so the pieces are exactly the text between the occurrences `str.split` takes |
| Text.StripRemovesSpace | languageprocessing/langproc.py:79-80 | `strip()` returns the text with its leading and trailing whitespace removed: a slice of the input, whitespace outside it, no whitespace at its ends; the result is empty exactly when the text is all whitespace |
| Text.Strip | languageprocessing/langproc.py:79-80 | `str.strip()`; no contract of its own, its properties are stated by `Text.StripRemovesSpace` and `Text.StripUnchanged` |
| Text.StripUnchanged | languageprocessing/langproc.py:79-80 | text without whitespace at either end is its own strip |
| Text.Lower | languageprocessing/langproc.py:173 | lower-casing keeps the length, turns each capital `A`-`Z` into the letter 32 code points above it, and leaves every other character as it is |
| Text.LowerIdempotent | languageprocessing/langproc.py:173 | lower-cased text holds no capital, and lower-casing it again changes nothing |
| Records.BindFields | languageprocessing/langproc.py:45-47 | the record built by the field loop has exactly the field names as keys |
| Records.BindFieldsAt | languageprocessing/langproc.py:45-47 | field i holds piece i unless a later field has the same name (the later assignment wins) |
| Records.ParseRecord | languageprocessing/langproc.py:43-47 | one line's record or fault; no contract of its own, stated by `Records.BindLine` and the `RecordTable` lemmas |
| Records.RecordTable | languageprocessing/langproc.py:39-49 | the fold over the lines that `loadlns` computes; no contract of its own, stated by `Records.LoadLines`, `Records.RecordTableFaults`, `Records.RecordTableKeys`, `Records.RecordTableKeysFromLines` and `Records.RecordTableLastWins` |
| Records.SplitOverlappingDelimiter | languageprocessing/langproc.py:43 | the delimiter overlaps itself: `" +++$+++ +++$+++ "` holds it at 0 and at 8, and splits into `""` and `"+++$+++ "` |
| Records.BindLine | languageprocessing/langproc.py:43-47 | the field loop returns the bound record, or `IndexError` of the line exactly when the line has fewer pieces than fields |
| Records.LoadLines | languageprocessing/langproc.py:39-49 | `loadlns` returns the table the line-by-line fold `RecordTable` defines: the first fault, or every record stored under its `lineID` |
| Records.RecordTableFaults | languageprocessing/langproc.py:39-49 | loading succeeds iff every line parses; on failure the fault is that of the first line that does not parse |
| Records.RecordTableKeys | languageprocessing/langproc.py:48 | on success every line is well formed and its `lineID` is a key of the table |
| Records.RecordTableKeysFromLines | languageprocessing/langproc.py:48 | on success every key of the table is the `lineID` of some line |
| Records.RecordTableLastWins | languageprocessing/langproc.py:48 | the entry for a `lineID` is the record of the last line carrying it |
| Conversations.DigitRun | languageprocessing/langproc.py:63 | the `[0-9]+` part of the pattern: the longest digit run at the start |
| Conversations.ScanIds | languageprocessing/langproc.py:63-64 | every match `findall` returns has the shape `L[0-9]+` |
| Conversations.ScanIdsDecomposes | languageprocessing/langproc.py:63-64 | the text is the matches interleaved with the gaps between them; no gap holds a match and no gap after a match starts with a digit, so matches are leftmost and maximal |
| Conversations.ScanIdsAppend | languageprocessing/langproc.py:64 | scanning splits across a character that is neither `L` nor a digit |
| Conversations.ScanOneId | languageprocessing/langproc.py:64 | one id followed by a non-id character scans as that id |
| Conversations.ScanIdsWithoutL | languageprocessing/langproc.py:64 | text without `L` has no match |
| Conversations.ScanQuotedId | languageprocessing/langproc.py:64 | a quoted id yields exactly that id before the rest |
| Conversations.ScanRenderedItems | languageprocessing/langproc.py:64 | the quoted, comma-separated items of a list give back their ids |
| Conversations.ScanRenderedList | languageprocessing/langproc.py:64 | round trip: `findall` on `str(list_of_ids)` plus the newline returns the ids in order |
| Conversations.Resolve | languageprocessing/langproc.py:67-68 | the lookups succeed iff every id has a record, giving the records in id order; otherwise a `KeyError` names the first missing id |
| Conversations.ParseConversation | languageprocessing/langproc.py:57-68 | one line's conversation or fault; no contract of its own, stated by `Conversations.ParseConversationIds` and the `Assemble` lemmas |
| Conversations.Assemble | languageprocessing/langproc.py:53-70 | the value-level result of `loadconv`; no contract of its own, stated by `Conversations.AssembleFaults`, `Conversations.AssembleOrigins`, `Conversations.AssembleOrdered`, `Conversations.AssembleCounts`, `Conversations.AssembleCopies` and `Conversations.LoadConversations` |
| Conversations.ParseConversationIds | languageprocessing/langproc.py:60-68 | a line that parses names `utteranceIDs` and resolves one record per scanned id |
| Conversations.ResolveInto | languageprocessing/langproc.py:66-69 | the inner loop fills the object's `lines` with the resolved records and appends the object once per id, or stops with the `KeyError` of `Resolve` |
| Conversations.LoadConversationLine | languageprocessing/langproc.py:56-69 | one iteration builds a fresh object whose contents are the parsed conversation and appends it once per resolved record, or returns the line's fault |
| Conversations.LoadConversations | languageprocessing/langproc.py:53-70 | `loadconv` fails iff `Assemble` fails, with the same fault; on success each output position holds the conversation of the entry `Assemble` defines, and two positions hold the same object iff they come from the same input line |
| Conversations.AssembleFaults | languageprocessing/langproc.py:53-70 | loading succeeds iff every line parses; on failure the fault is that of the first line that does not parse |
| Conversations.AssembleOrigins | languageprocessing/langproc.py:56-69 | every entry is the parsed conversation of the line it records |
| Conversations.AssembleOrdered | languageprocessing/langproc.py:56-69 | entries come in the order of the input lines |
| Conversations.AssembleCounts | languageprocessing/langproc.py:67-69 | line n contributes exactly as many entries as it resolved records |
| Conversations.AssembleCopies | languageprocessing/langproc.py:64-69 | the duplicate append: line n contributes exactly as many copies as it has ids, and a line with none contributes nothing |
| Conversations.SameObjectSameLine | languageprocessing/langproc.py:59-69 | appending m copies of a fresh object for a new line keeps "same object iff same line" |
| Conversations.ConversationObject.constructor | languageprocessing/langproc.py:59-65 | a fresh conversation object holds the bound fields and an empty `lines` list |
| Pairs.PairsUpTo | languageprocessing/langproc.py:78-83 | the first n iterations keep at most n pairs, each with both sides non-empty |
| Pairs.PairsOf | languageprocessing/langproc.py:78-83 | the pairs of one conversation; no contract of its own, stated by `Pairs.PairsUpTo`, `Pairs.PairsUpToMembers`, `Pairs.PairSources`, `Pairs.PairSourcesComplete` and `Pairs.PairsStripped` |
| Pairs.LinePairs | languageprocessing/langproc.py:78-83 | the inner loop returns the pairs `PairsOf` defines, or `KeyError('text')` exactly when some record it reads lacks `text` |
| Pairs.ExtractPairs | languageprocessing/langproc.py:74-84 | `extractsentencepairs` returns `Extract` of the objects' current contents: the pairs of every conversation in order, or `KeyError('text')` |
| Pairs.Extract | languageprocessing/langproc.py:74-84 | the pairs of all conversations or `KeyError('text')`; no contract of its own, stated by `Pairs.ExtractPairs`, `Pairs.HasTextsIff`, `Pairs.AllPairsAppend` and `Pairs.AllPairsMembers` |
| Pairs.HasTextsIff | languageprocessing/langproc.py:78-80 | the loop raises iff a conversation of two or more records has a record without `text` |
| Pairs.PairsUpToMembers | languageprocessing/langproc.py:78-83 | a pair is kept iff it is the non-empty candidate of some iteration |
| Pairs.PairSources | languageprocessing/langproc.py:78-83 | the kept pairs come from strictly increasing positions: record order is preserved |
| Pairs.PairSourcesComplete | languageprocessing/langproc.py:78-83 | every position whose candidate pair has both sides non-empty is a source: no kept pair is skipped |
| Pairs.UtteranceStripped | languageprocessing/langproc.py:79-80 | a stripped text is empty or has no whitespace at either end |
| Pairs.PairsStripped | languageprocessing/langproc.py:79-83 | both sides of every pair are non-empty, with no surrounding whitespace |
| Pairs.AllPairsAppend | languageprocessing/langproc.py:76-83 | the pairs of two runs of conversations are the pairs of the first followed by those of the second |
| Pairs.AllPairsMembers | languageprocessing/langproc.py:76-83 | no pair crosses a conversation: a pair is in the output iff it is a pair of one conversation |
| Pairs.RepeatedConversationPairs | languageprocessing/langproc.py:76-83 | an object appended k times by `loadconv` yields its pairs k times: none for k = 0, and each further copy appends the conversation's pairs once more |
| Pairs.BlankMiddleLine | languageprocessing/langproc.py:79-82 | three records with a blank middle text give no pair |
| Normalize.SpacePunctuationMarks | languageprocessing/langproc.py:174 | after the first substitution no sentence mark is first or follows a letter or mark |
| Normalize.SpacePunctuationChars | languageprocessing/langproc.py:174 | the first substitution adds nothing but spaces |
| Normalize.SpacePunctuationKeeps | languageprocessing/langproc.py:174 | the first substitution keeps the letters and marks in order |
| Normalize.SpacePunctuationAppend | languageprocessing/langproc.py:174 | the first substitution works character by character: the result for a concatenation is the concatenation of the results |
| Normalize.SpacePunctuationChar | languageprocessing/langproc.py:174 | on one character it puts exactly one space before a sentence mark and leaves any other character as it is |
| Normalize.SpacePunctuationFixesUnmarked | languageprocessing/langproc.py:174 | text without a sentence mark is unchanged by the first substitution |
| Normalize.SkipRunSuffix | languageprocessing/langproc.py:175 | a maximal run of `[^a-zA-Z.!?]` is a prefix, and what follows it starts with a kept character |
| Normalize.CollapseRunsShape | languageprocessing/langproc.py:175 | after the second substitution only letters, marks and single spaces remain |
| Normalize.CollapseRunsChars | languageprocessing/langproc.py:175 | the second substitution adds nothing but spaces |
| Normalize.CollapseRunsKeeps | languageprocessing/langproc.py:175 | the second substitution keeps the letters and marks in order |
| Normalize.CollapseKeepsMarkSpacing | languageprocessing/langproc.py:174-175 | collapsing turns the gap before each sentence mark into a single preceding space |
| Normalize.SubstituteShape | languageprocessing/langproc.py:174-175 | the two substitutions always produce normalized shape: letters, marks and single spaces, every mark after a space |
| Normalize.SubstituteKeeps | languageprocessing/langproc.py:174-175 | the substitutions neither lose, reorder nor invent a letter or mark |
| Normalize.SubstituteFixesShape | languageprocessing/langproc.py:174-175 | text already in normalized shape passes through unchanged |
| Normalize.SubstituteIdempotent | languageprocessing/langproc.py:174-175 | applying the substitutions twice is applying them once |
| Normalize.SkipWholeRun | languageprocessing/langproc.py:175 | a run of `[^a-zA-Z.!?]` characters is skipped up to the kept character that ends it |
| Normalize.SkipRunAppend | languageprocessing/langproc.py:175 | skipping the run at the start of text that ends in a letter or mark stops inside that text |
| Normalize.CollapseRunsAppend | languageprocessing/langproc.py:175 | the second substitution works piecewise across a boundary right after a letter or mark |
| Normalize.CollapseRunsRun | languageprocessing/langproc.py:175 | a non-empty run in front of a letter, a mark or the end becomes exactly one space |
| Normalize.CollapseRunsGap | languageprocessing/langproc.py:175 | a maximal run between u and v becomes one space: the result is the collapsed u, a space, and the collapsed v |
| Normalize.CollapseRunsFixesKept | languageprocessing/langproc.py:175 | text of letters and marks only is unchanged by the second substitution |
| Normalize.SpacePunctuationEnd | languageprocessing/langproc.py:174 | a final letter or sentence mark stays last after the first substitution |
| Normalize.SubstituteGap | languageprocessing/langproc.py:174-175 | a non-empty run of other characters between text ending in a letter or mark and text starting with a letter becomes exactly one space, and the text around it is substituted on its own |
| Normalize.SubstituteDigitGap | languageprocessing/langproc.py:174-175 | `"a1b"` becomes `"a b"`: the digit is replaced by a space, not dropped |
| Normalize.SpacePunctuation | languageprocessing/langproc.py:174 | the first substitution; no contract of its own, fixed on every input by `Normalize.SpacePunctuationAppend` and `Normalize.SpacePunctuationChar`, with `Normalize.SpacePunctuationMarks`, `Normalize.SpacePunctuationChars` and `Normalize.SpacePunctuationKeeps` |
| Normalize.CollapseRuns | languageprocessing/langproc.py:175 | the second substitution; no contract of its own, stated by `Normalize.CollapseRunsShape`, `Normalize.CollapseRunsChars`, `Normalize.CollapseRunsKeeps`, `Normalize.CollapseRunsGap` and `Normalize.CollapseRunsFixesKept` |
| Normalize.Substitute | languageprocessing/langproc.py:174-175 | both substitutions in order; no contract of its own, stated by `Normalize.SubstituteGap`, `Normalize.SubstituteShape`, `Normalize.SubstituteKeeps`, `Normalize.SubstituteFixesShape` and `Normalize.SubstituteIdempotent`, and fixed on every input by the lemmas of its two steps |
| Normalize.NormalizeStringShape | languageprocessing/langproc.py:172-175 | the intended result has normalized shape, no capitals, and the letters and marks of the lower-cased, stripped input |
| Normalize.NormalizeString | languageprocessing/langproc.py:172-175 | the normalized text the function evidently means to return; no contract of its own, fixed by `Text.Lower`, `Text.StripRemovesSpace` and the lemmas of `Normalize.Substitute`, and stated by `Normalize.NormalizeStringShape`, `Normalize.NormalizeFixesNormalized`, `Normalize.NormalizeDigitGap` and `Normalize.NormalizeNotIdempotent` |
| Normalize.NormalizeFixesNormalized | languageprocessing/langproc.py:172-175 | lower-case ASCII text of normalized shape without a leading or trailing space is its own normalization |
| Normalize.NormalizeDigitGap | languageprocessing/langproc.py:172-175 | the evidently intended result for `"A1b"` is `"a b"` |
| Normalize.NormalizeAsWritten | languageprocessing/langproc.py:172-175 | the function as written; no contract of its own, `Normalize.NormalizeDropsResult` shows it yields `None` |
| Normalize.NormalizeNotIdempotent | languageprocessing/langproc.py:172-175 | the whole normalizer is not idempotent: `"a1"` gives `"a "`, which gives `"a"` |
| Normalize.NormalizeDropsResult | languageprocessing/langproc.py:172-175 | as written the function returns nothing where `"a !"` is intended |
| Vocab.Sentinels | languageprocessing/langproc.py:125-129 | the sentinel map has exactly the indices 0 to 2 |
| Vocab.WordToIndex | languageprocessing/langproc.py:137 | `wordtoindex` has exactly the added words as keys |
| Vocab.IndexToWord | languageprocessing/langproc.py:139 | `indextoword` has exactly the indices 0 up to `numwords` as keys |
| Vocab.CountWord | languageprocessing/langproc.py:135-142 | the tally after one `addword`; no contract of its own, stated by `Vocab.CountWordsValid`, `Vocab.CountWordsMembers` and `Vocab.CountWordsCounts` |
| Vocab.CountWords | languageprocessing/langproc.py:132-142 | the tally after a run of `addword` calls; no contract of its own, stated by `Vocab.CountWordsValid`, `Vocab.CountWordsMembers`, `Vocab.CountWordsCounts`, `Vocab.CountWordsGrowth` and `Vocab.CountWordsOrder`, and by `Vocab.Vocabulary.AddSentence` |
| Vocab.WordToIndexAt | languageprocessing/langproc.py:136-140 | the k-th word first seen has index 3 + k |
| Vocab.IndexToWordAt | languageprocessing/langproc.py:125-139 | indices 0 to 2 stay `PAD`, `SOS`, `EOS`, and index 3 + k holds the k-th word |
| Vocab.WordIndexInverse | languageprocessing/langproc.py:137-139 | looking up a word's index in `indextoword` gives back the word |
| Vocab.IndexWordInverse | languageprocessing/langproc.py:137-139 | looking up the word at an index from 3 on in `wordtoindex` gives back the index |
| Vocab.WordIndicesDense | languageprocessing/langproc.py:137-140 | the word indices are exactly 3 to `numwords - 1` |
| Vocab.CountWordsValid | languageprocessing/langproc.py:135-142 | adding words keeps the words distinct, all counted at least once, and the earlier words in front |
| Vocab.CountWordsMembers | languageprocessing/langproc.py:132-142 | after adding, the vocabulary knows exactly the old words and the added ones |
| Vocab.CountWordsCounts | languageprocessing/langproc.py:135-142 | each word's count grows by its number of occurrences among the added words |
| Vocab.CountWordsGrowth | languageprocessing/langproc.py:132-142 | the number of words, and with it `numwords`, grows by the number of distinct added words not seen before |
| Vocab.NewWordsAppend | languageprocessing/langproc.py:136-140 | one more added word is a new word exactly when it is neither known nor added before |
| Vocab.CountWordsOrder | languageprocessing/langproc.py:132-142 | the new words are appended after the known ones, each once, in the order of their first occurrence |
| Vocab.KeptMembers | languageprocessing/langproc.py:149-151 | a word is kept iff it was counted at least `min_threshold` times |
| Vocab.KeptPositions | languageprocessing/langproc.py:149-151 | kept words come in their first-seen order |
| Vocab.KeptAll | languageprocessing/langproc.py:150 | with a threshold of at most 1 every word is kept |
| Vocab.Kept | languageprocessing/langproc.py:148-151 | the words the loop keeps; no contract of its own, stated by `Vocab.KeptMembers`, `Vocab.KeptPositions` and `Vocab.KeptAll` |
| Vocab.Trimmed | languageprocessing/langproc.py:148-163 | the tally `trim` leaves; no contract of its own, stated by `Vocab.TrimmedSpec`, `Vocab.TrimmedLowThreshold` and `Vocab.TrimmedStable` |
| Vocab.CountDistinctWords | languageprocessing/langproc.py:161-163 | re-adding distinct words to an empty vocabulary lists them in order, each counted once |
| Vocab.TrimmedSpec | languageprocessing/langproc.py:144-163 | after trimming, the words are exactly the kept ones in first-seen order, each with count 1 |
| Vocab.TrimmedLowThreshold | languageprocessing/langproc.py:148-163 | trimming at a threshold of at most 1 keeps every word in order |
| Vocab.TrimmedStable | languageprocessing/langproc.py:144-163 | rebuilding a trimmed vocabulary again at a threshold of at most 1 changes nothing |
| Vocab.Vocabulary.constructor | languageprocessing/langproc.py:120-130 | a fresh vocabulary is untrimmed, with empty word maps, the three sentinels and `numwords == 3` |
| Vocab.Vocabulary.AddWord | languageprocessing/langproc.py:135-142 | a new word gets index `numwords`, count 1 and its reverse entry, and `numwords` grows by one; a known word's count grows by one and nothing else changes |
| Vocab.Vocabulary.AddSentence | languageprocessing/langproc.py:132-134 | the vocabulary after `addsentence` is that of `addword` applied to each `' '`-separated piece in turn; with `Vocab.CountWordsGrowth` and `Vocab.CountWordsOrder`, `numwords` grows by the distinct unseen pieces, which take the next indices in first-occurrence order |
| Vocab.Vocabulary.KeptWords | languageprocessing/langproc.py:148-151 | the `for` loop appends the words counted at least `min_threshold` times, in first-seen order |
| Vocab.Vocabulary.Rebuild | languageprocessing/langproc.py:154-163 | the re-initialized vocabulary holds the kept words as if added one by one to a fresh one |
| Vocab.Vocabulary.Trim | languageprocessing/langproc.py:144-163 | once trimmed nothing changes; otherwise the flag is set, an empty vocabulary raises `ZeroDivisionError`, and any other becomes the trimmed tally |

## Left out

- File I/O is not modelled. A file is the sequence of its lines, each still ending in `'\n'`, as Python's iteration yields them. Opening files, the `iso-8859-1` decoding and writing the CSV output are left out.
- The module-level script is left out because it drives the core rather than being part of it: the corpus paths, the delimiter decoding, the calls that glue the stages together, `println`, the timings and the progress messages. The retained-fraction message in `trim` is left out too, apart from the `ZeroDivisionError` its division raises.
- The `torch` imports, the CUDA device choice and `bot.py` are left out: none of them takes part in the data pipeline.
- `unicodetoascii` (langproc.py:167-170) is left out because it needs Unicode decomposition and character categories. It is the identity on ASCII text.
- Normalize.NormalizeString: requires its input to be ASCII, which the source does not require. Without that precondition the model would need Unicode lower-casing and decomposition.
- Vocab.Vocabulary.Trim: `min_threshold` is an integer; Python would compare any number there. The walk over `wordtocount.items()` is modelled as a walk over indices 3 onwards. Python dictionaries iterate in insertion order, and the class invariant makes that the same order. That order is carried by the ghost field `words`.
- The `IndexError` fault carries the 0-based number of the line that raised it. Python's `IndexError` carries no line number, so the "same fault" of `Records.RecordTableFaults` and `Conversations.AssembleFaults` is finer than what Python reports.
- Conversations.LoadConversations: the output is related to the value-level `Assemble` by contents and by which positions share an object. Mutating a shared object later is not modelled.

## Findings

| source | as written | input that shows it | evidently intended | confidence | as-written member | corrected member |
|---|---|---|---|---|---|---|
| languageprocessing/langproc.py:172-175 | `normalizestring` assigns the normalized text to `strg` but has no `return`, so every call yields `None` | `"A!"`: as written the result is `None` | return the normalized text, here `"a !"` | not executed | Normalize.NormalizeAsWritten (shown by Normalize.NormalizeDropsResult) | Normalize.NormalizeString (its shape proved by Normalize.NormalizeStringShape) |
