# Word tokenizer and toy inverted index, in Dafny

This project models two small Python programs of a course repository.

- **`WordTokenizer`** (`assignments/01-homework1/tokenizer.py`) builds the
  vocabulary of a transcript corpus:
  - it loads a stopword list;
  - it counts the space-separated words of every lower-cased, stripped
    line of every transcript;
  - it cleans the counts in two passes;
  - it writes the counts as CSV rows, highest count first.

  The first cleaning pass drops stopwords and punctuated words. A punctuated
  word can first hand its count to its punctuation-free form. The second
  pass adds a word's count to its stem, but only when the stem differs from
  the word and is not a stopword.
- **The inverted index** (`assignments/00-inverted-index/__main__.py`) takes
  commas and periods out of a document and strips it. It then records the
  document's id against every space-separated word that is left.

## Structure

- `Text`: models the string operations the programs use.
  - `str.lower`, `str.strip`, `str.split(" ")` and `str.replace(c, "")`.
  - The `\W` regex class, as a search and as a substitution.
  - Lemmas, such as the shape of a strip and split/join round trips.
- `CountMaps`: models a `defaultdict(lambda: 0)` as a value.
  - The keys are kept in insertion order, as `.keys()` and `.items()` walk
    them, together with the count map.
  - `Add` models `d[k] += n`; `Delete` models `del d[k]`.
  - Lemmas track the value total.
- `Normalizer`: functions on values that describe each tokenizer step,
  loop by loop.
  - It also holds the lemmas about what those steps do to the counts.
  - This includes an independent account of the first cleaning pass
    (`PassOneCount`), which is the only closed description of that pass's
    order-dependent merging.
- `Report`: models the stable descending sort of `sorted(..., reverse=True)`,
  the `word,count` rows, and a row parser with a round-trip lemma.
- `Tokenizer`: the class `WordTokenizer`, with the fields `words` and
  `stopwords`.
  - Its methods run the source's loops in place.
  - The inner word loop of `load_file`, each of the three loops of
    `clean_tokens` and the body of the first of those loops are methods of
    their own.
  - Each method is proved to leave exactly the state that the matching
    `Normalizer` function describes.
- `InvertedIndex`: covers the index itself.
  - `CleanData` models `clean_data`.
  - The posting-set function `AddPostings` has its lemmas.
  - The class `WordIndex` holds the `word_index` map. Its method
    `AddDocument` loops in place over the fields.

The condition at tokenizer.py:88 is modelled as written. A punctuated word
that is not itself a stopword gives its count to its cleaned form only when
that cleaned form is non-empty and *is* a stopword (`Normalizer.Merges`).

The comment above that line (line 87) describes the opposite: a merge into
words that exist and are not stopwords. The cleaned form need not be a key
of the snapshot. When it is not, the merge inserts it and it stays, since it
is never visited (`MergeKeptWhenStopwordAbsent`). When it is a snapshot key,
line 79 deletes it in its own iteration. So a merged count survives unless
the stopword key is in the snapshot and is visited after the punctuated key.
`MergeLostWhenStopwordLater` and `MergeKeptWhenStopwordEarlier` show both
orders.

## Model

| member | source | states |
|---|---|---|
| `Text.Lower` | assignments/01-homework1/tokenizer.py:53 | `lower()` keeps the length; its effect per character is `LowerShape` |
| `Text.LowerShape` | assignments/01-homework1/tokenizer.py:40 | the lowered string has the same length and no `A`-`Z`; each `A`-`Z` becomes its lower-case letter and every other character is unchanged |
| `Text.Strip` | assignments/00-inverted-index/__main__.py:22 | `strip()` as a left strip then a right strip; what it keeps and cuts is `StripShape` |
| `Text.StripShape` | assignments/00-inverted-index/__main__.py:22 | `strip()` keeps one contiguous middle slice that neither starts nor ends with whitespace, and everything it cuts on either side is whitespace |
| `Text.StripFixed` | assignments/01-homework1/tokenizer.py:53 | a string with no surrounding whitespace is its own strip |
| `Text.StripIdempotent` | assignments/01-homework1/tokenizer.py:53 | stripping twice equals stripping once |
| `Text.StripKeepsAbsent` | assignments/00-inverted-index/__main__.py:22 | stripping introduces no character, so a character absent before is absent after |
| `Text.RemoveChar` | assignments/00-inverted-index/__main__.py:18-19 | `replace(c, "")` leaves no `c` and shortens the string by the number of `c`s |
| `Text.RemoveCharKeeps` | assignments/00-inverted-index/__main__.py:18-19 | every character other than `c` occurs as often after the replace as before |
| `Text.RemoveCharSingle` | assignments/00-inverted-index/__main__.py:18-19 | on one character, the replace drops it if it is `c` and keeps it otherwise |
| `Text.RemoveCharConcat` | assignments/00-inverted-index/__main__.py:18-19 | the replace works piecewise on a concatenation; with `RemoveCharSingle` this fixes the result as the input with the `c`s cut out, in order |
| `Text.RemoveAbsent` | assignments/00-inverted-index/__main__.py:18-19 | replacing a character that does not occur leaves the string unchanged |
| `Text.RemoveNonWord` | assignments/01-homework1/tokenizer.py:84-85 | the substitution leaves no `\W` character; it shortens a string that has one and leaves a string without one unchanged |
| `Text.RemoveNonWordKeeps` | assignments/01-homework1/tokenizer.py:85 | every word character occurs as often after the substitution as before |
| `Text.RemoveNonWordSingle` | assignments/01-homework1/tokenizer.py:85 | on one character, the substitution keeps a word character and drops any other |
| `Text.RemoveNonWordConcat` | assignments/01-homework1/tokenizer.py:85 | the substitution works piecewise on a concatenation; with `RemoveNonWordSingle` this fixes the result as the word characters of the input, in order |
| `Text.Split` | assignments/01-homework1/tokenizer.py:54 | `split(" ")` always yields at least one field, so an empty line yields `[""]` |
| `Text.SplitLength` | assignments/01-homework1/tokenizer.py:54 | there is one field more than there are separators |
| `Text.SplitFieldsHaveNoSep` | assignments/01-homework1/tokenizer.py:54 | no field contains the separator |
| `Text.JoinSplit` | assignments/00-inverted-index/__main__.py:29 | joining the fields with the separator gives back the split string |
| `Text.SplitJoin` | assignments/01-homework1/tokenizer.py:54 | splitting a join of separator-free fields gives back those fields |
| `CountMaps.Add` | assignments/01-homework1/tokenizer.py:55 | `d[k] += n` keeps the dictionary well formed; it raises `k` by exactly `n` and leaves every other key alone; a new key is appended to the insertion order |
| `CountMaps.Delete` | assignments/01-homework1/tokenizer.py:80 | `del d[k]`, defined only on a present key; it removes just that key from the map and from the order |
| `CountMaps.RemoveFrom` | assignments/01-homework1/tokenizer.py:80 | the key order without the deleted key, with the other keys still listed once each |
| `CountMaps.RemoveFromConcat` | assignments/01-homework1/tokenizer.py:80 | removing a key works piecewise on a concatenation of key orders |
| `CountMaps.RemoveFromAt` | assignments/01-homework1/tokenizer.py:80 | in a duplicate-free order, removing the key at position `i` leaves the keys before and the keys after it, in order |
| `CountMaps.DeleteOrder` | assignments/01-homework1/tokenizer.py:80 | `del d[k]` cuts `k` out of the insertion order and keeps every other key in its place |
| `CountMaps.TotalAdd` | assignments/01-homework1/tokenizer.py:55 | `d[k] += n` raises the sum of all counts by exactly `n` |
| `CountMaps.TotalDelete` | assignments/01-homework1/tokenizer.py:80 | `del d[k]` lowers the sum of all counts by exactly `d[k]` |
| `Normalizer.StopwordsOf` | assignments/01-homework1/tokenizer.py:37-43 | the loaded stopwords never include the empty word; which words they are is `StopwordsOfMembers` |
| `Normalizer.StopwordsOfMembers` | assignments/01-homework1/tokenizer.py:37-43 | a word is loaded as a stopword if and only if it is non-empty and is the lower-cased, stripped form of some line |
| `Normalizer.AddEach` | assignments/01-homework1/tokenizer.py:54-55 | counting a sequence of words keeps the dictionary well formed |
| `Normalizer.AddEachGet` | assignments/01-homework1/tokenizer.py:54-55 | each key's count rises by exactly its number of occurrences in the words |
| `Normalizer.AddEachHas` | assignments/01-homework1/tokenizer.py:54-55 | a key is present afterwards if and only if it was present before or occurs among the words |
| `Normalizer.AddEachTotal` | assignments/01-homework1/tokenizer.py:54-55 | the total rises by the number of words |
| `Normalizer.LoadLine` | assignments/01-homework1/tokenizer.py:53-55 | reading one line keeps the dictionary well formed |
| `Normalizer.LoadLineEffect` | assignments/01-homework1/tokenizer.py:53-55 | one line adds one count per field, and there is one field more than the spaces in its normalised form; a blank line adds one `""`; non-field keys are unchanged |
| `Normalizer.LoadLines` | assignments/01-homework1/tokenizer.py:49-55 | reading a file keeps the dictionary well formed |
| `Normalizer.LoadLinesTotal` | assignments/01-homework1/tokenizer.py:49-55 | a file raises the total by the number of fields of its lines |
| `Normalizer.LoadFiles` | assignments/01-homework1/tokenizer.py:57-66 | reading the found files in order keeps the dictionary well formed |
| `Normalizer.Dropped` | assignments/01-homework1/tokenizer.py:79-92 | a key is deleted in its own iteration when its lower-case form is a stopword or it is punctuated; a key that is not is its own cleaned form and not a stopword |
| `Normalizer.Merges` | assignments/01-homework1/tokenizer.py:84-88 | the condition of line 88, as written, inside the punctuated branch: a merging key is always also deleted, and its cleaned form differs from it |
| `Normalizer.CleanStep` | assignments/01-homework1/tokenizer.py:79-92 | one iteration of the first pass keeps the dictionary well formed and deletes no key other than its own |
| `Normalizer.CleanStepEffect` | assignments/01-homework1/tokenizer.py:79-92 | a stopword or punctuated key is deleted; a merging key's count first goes to its cleaned form; any other key leaves the dictionary as it was; the total drops by the key's count unless it merged |
| `Normalizer.PassOne` | assignments/01-homework1/tokenizer.py:77-92 | every snapshot key is still present when its iteration comes (the `del` never fails), and keys not yet visited stay |
| `Normalizer.PassOneStep` | assignments/01-homework1/tokenizer.py:77-92 | when the loop reaches the `i`-th snapshot key, that key is still present, and the pass over one more key is one more iteration |
| `Normalizer.PassOneCount` | assignments/01-homework1/tokenizer.py:77-92 | the count of every key after the pass, stated independently: a visited dropped key keeps nothing of its own; each key gains the counts of the later-visited keys that merge into it; presence is stated both ways |
| `Normalizer.PassOnePunctuatedGone` | assignments/01-homework1/tokenizer.py:84-92 | no visited punctuated key survives the pass |
| `Normalizer.PassOneKeepsPlain` | assignments/01-homework1/tokenizer.py:77-92 | a key that is neither a stopword nor punctuated keeps exactly its count |
| `Normalizer.PassOneNewKeys` | assignments/01-homework1/tokenizer.py:88-89 | a key the pass inserts is the non-empty, punctuation-free cleaned form of a visited key, and it is itself a stopword |
| `Normalizer.MergedMassZero` | assignments/01-homework1/tokenizer.py:88 | nothing merges into a key that is punctuated or is not a stopword |
| `Normalizer.CleanPunctuation` | assignments/01-homework1/tokenizer.py:77-92 | after the whole first pass, no key contains a `\W` character |
| `Normalizer.MergeLostWhenStopwordLater` | assignments/01-homework1/tokenizer.py:77-92 | with keys `star,` then `star` and stopword `star`, the merged count is deleted again and `star` is absent |
| `Normalizer.MergeKeptWhenStopwordEarlier` | assignments/01-homework1/tokenizer.py:77-92 | with keys `star` then `star,`, the result is exactly `star` with `star,`'s count |
| `Normalizer.MergeKeptWhenStopwordAbsent` | assignments/01-homework1/tokenizer.py:77-92 | with the single key `star,` and stopword `star`, the merge inserts `star` with `star,`'s count and it stays |
| `Normalizer.Feeds` | assignments/01-homework1/tokenizer.py:99 | the condition of line 99: the stem differs from the word and is not a stopword; what it feeds is `StemCountsGet` |
| `Normalizer.StemCounts` | assignments/01-homework1/tokenizer.py:95-100 | the side map `stemmed` is a well-formed dictionary |
| `Normalizer.StemCountsGet` | assignments/01-homework1/tokenizer.py:97-100 | `stemmed[k]` is the sum of the counts of the words whose stem is `k`, differs from the word and is not a stopword |
| `Normalizer.StemCountsHas` | assignments/01-homework1/tokenizer.py:97-100 | `k` is a key of `stemmed` if and only if some word feeds it |
| `Normalizer.SomeFeedsSnoc` | assignments/01-homework1/tokenizer.py:97-100 | one more visited word feeds `k` exactly when it does or an earlier word did |
| `Normalizer.StemCountsTotal` | assignments/01-homework1/tokenizer.py:97-100 | the side map holds exactly the counts of the words that feed a stem |
| `Normalizer.MergeInto` | assignments/01-homework1/tokenizer.py:102-103 | adding the side map back keeps the dictionary well formed |
| `Normalizer.MergeIntoGet` | assignments/01-homework1/tokenizer.py:102-103 | each listed key gains the side map's count, and no key is removed |
| `Normalizer.MergeIntoTotal` | assignments/01-homework1/tokenizer.py:102-103 | the total rises by the sum of the side map's counts |
| `Normalizer.StemPass` | assignments/01-homework1/tokenizer.py:95-103 | the stemming pass keeps the dictionary well formed |
| `Normalizer.StemPassGet` | assignments/01-homework1/tokenizer.py:95-103 | each key gains the counts of the words that feed it; no key is removed; a new key is always some word's stem |
| `Normalizer.StemPassTotal` | assignments/01-homework1/tokenizer.py:95-103 | the total rises by exactly the counts of the words that feed a stem |
| `Normalizer.CleanTokens` | assignments/01-homework1/tokenizer.py:74-105 | the whole cleaning keeps the dictionary well formed |
| `Normalizer.CleanTokensKeepsPlain` | assignments/01-homework1/tokenizer.py:77-103 | a word that is neither a stopword nor punctuated survives cleaning with at least its count |
| `Report.Items` | assignments/01-homework1/tokenizer.py:113 | `items()` has one entry per key of the dictionary: a word is listed if and only if it is a key, no word is listed twice, and each entry carries the word's stored count |
| `Report.Insert` | assignments/01-homework1/tokenizer.py:113 | insertion adds exactly the one entry (as a multiset) |
| `Report.InsertSorted` | assignments/01-homework1/tokenizer.py:113 | inserting into a descending list keeps it descending |
| `Report.SortByCount` | assignments/01-homework1/tokenizer.py:113 | the sort is a permutation of the items with non-increasing counts |
| `Report.InsertWithCount` | assignments/01-homework1/tokenizer.py:113 | insertion puts the new entry ahead of the entries with its count |
| `Report.SortStable` | assignments/01-homework1/tokenizer.py:113 | entries with equal counts keep their insertion order, as Python's stable sort does with `reverse=True` |
| `Report.Decimal` | assignments/01-homework1/tokenizer.py:114 | `str(n)` is a non-empty string of digits, with no leading zero unless it is `0` itself |
| `Report.DecimalRoundTrip` | assignments/01-homework1/tokenizer.py:114 | reading the numeral back gives `n` |
| `Report.Row` | assignments/01-homework1/tokenizer.py:114 | the row `word,count`; that it reads back is `RowRoundTrip` |
| `Report.RowRoundTrip` | assignments/01-homework1/tokenizer.py:114 | every row `word,count` reads back as its entry, whatever characters the word holds (commas included) |
| `Report.RowsOrdered` | assignments/01-homework1/tokenizer.py:112-114 | the data rows under the header read back with non-increasing counts |
| `Tokenizer.WordTokenizer.constructor` | assignments/01-homework1/tokenizer.py:23-26 | empty counts, no stopwords, and the given stemmer |
| `Tokenizer.WordTokenizer.LoadStopwords` | assignments/01-homework1/tokenizer.py:37-43 | the stopword set grows by exactly `StopwordsOf(lines)`, and the counts are untouched |
| `Tokenizer.WordTokenizer.LoadFile` | assignments/01-homework1/tokenizer.py:49-55 | the loop over the lines leaves exactly `LoadLines(old(words), lines)` |
| `Tokenizer.WordTokenizer.CountWords` | assignments/01-homework1/tokenizer.py:54-55 | the loop over one line's words leaves exactly `AddEach(old(words), fields)` |
| `Tokenizer.WordTokenizer.LoadFiles` | assignments/01-homework1/tokenizer.py:57-66 | loading the found files in order leaves exactly `LoadFiles(old(words), files)` |
| `Tokenizer.WordTokenizer.CleanTokens` | assignments/01-homework1/tokenizer.py:74-105 | the three loops together leave exactly `CleanTokens(old(words), stem, stopwords)`, and the stopwords are untouched |
| `Tokenizer.WordTokenizer.CleanPunctuation` | assignments/01-homework1/tokenizer.py:77-92 | the loop over the key snapshot leaves exactly `CleanPunctuation(old(words), stopwords)`: every `del` hits a present key |
| `Tokenizer.WordTokenizer.CleanWord` | assignments/01-homework1/tokenizer.py:79-92 | one iteration of the first loop, in place, leaves exactly `CleanStep(old(words), word, stopwords)` |
| `Tokenizer.WordTokenizer.StemCounts` | assignments/01-homework1/tokenizer.py:95-100 | the side map the loop builds is `StemCounts(words, words.keys, stem, stopwords)`, and the counts are not changed |
| `Tokenizer.WordTokenizer.MergeStemmed` | assignments/01-homework1/tokenizer.py:102-103 | the merge-back loop leaves exactly `MergeInto(old(words), stemmed, stemmed.keys)` |
| `Tokenizer.WordTokenizer.ReportRows` | assignments/01-homework1/tokenizer.py:111-114 | the header, then one row per entry of the stable descending sort of `items()`; the rows read back with non-increasing counts |
| `Tokenizer.WordTokenizer.Run` | assignments/01-homework1/tokenizer.py:107-114 | the stopwords, the cleaned counts of the loaded corpus, and the sorted rows |
| `InvertedIndex.CleanData` | assignments/00-inverted-index/__main__.py:16-24 | both replaces, then the strip; its shape is `CleanDataShape` |
| `InvertedIndex.CleanDataShape` | assignments/00-inverted-index/__main__.py:16-24 | the cleaned text contains no `,` and no `.`, and is empty or has no leading or trailing whitespace |
| `InvertedIndex.CleanDataFixed` | assignments/00-inverted-index/__main__.py:16-24 | text that is already clean is returned unchanged |
| `InvertedIndex.CleanDataIdempotent` | assignments/00-inverted-index/__main__.py:16-24 | `clean_data(clean_data(x)) == clean_data(x)` |
| `InvertedIndex.FieldsClean` | assignments/00-inverted-index/__main__.py:27-29 | no indexed word contains a comma, a period or a space, and the words joined with spaces give back the cleaned text |
| `InvertedIndex.AddPostings` | assignments/00-inverted-index/__main__.py:29-30 | `word_index[word].add(id)` for each field in turn, a missing key starting from the empty set; its effect is `AddPostingsExact` |
| `InvertedIndex.AddPostingsExact` | assignments/00-inverted-index/__main__.py:29-30 | a key is present if and only if it was present or is a field; its posting set is the old set plus `id` exactly when it is a field |
| `InvertedIndex.AddPostingsRecords` | assignments/00-inverted-index/__main__.py:29-30 | every field maps to a set that contains `id` |
| `InvertedIndex.AddPostingsGrows` | assignments/00-inverted-index/__main__.py:29-30 | no key and no id is lost, and keys that are not fields keep their posting sets |
| `InvertedIndex.AddPostingsIdempotent` | assignments/00-inverted-index/__main__.py:29-30 | adding the same document twice gives the same index as adding it once |
| `InvertedIndex.AddPostingsCommute` | assignments/00-inverted-index/__main__.py:37-38 | the order in which two documents are added does not change the index |
| `InvertedIndex.WordIndex.constructor` | assignments/00-inverted-index/__main__.py:14 | the index starts empty |
| `InvertedIndex.WordIndex.AddDocument` | assignments/00-inverted-index/__main__.py:26-30 | the loop leaves exactly `AddPostings(old(index), Split(CleanData(data), ' '), id)` |

## Left out

- File I/O. A file is its sequence of lines, and the report is its sequence
  of rows; `open`, `readlines` and the CSV write (tokenizer.py:38, 50-51,
  111-114) are not modelled.
- `load_stopwords` (tokenizer.py:30-35) is not modelled: it catches a missing
  file, prints and calls `sys.exit`, which is process control.
- Directory walking. `Tokenizer.WordTokenizer.LoadFiles` takes the contents of
  the `.txt` files that `os.walk` finds, in the order it finds them.
  - `os.walk`, the `.txt` suffix test and the path join (tokenizer.py:60-63)
    are not modelled.
  - The `loaded` counter only feeds a log line.
- Logging, the `DEBUG` switch and the environment-variable file locations
  (tokenizer.py:14-18, 24, 45, 66, 75, 105) are not modelled.
- `stem_word` (tokenizer.py:70-72) is not modelled as the NLTK Snowball
  stemmer, which is a foreign library. The stemmer is any function
  `string -> string`, given when the object is built, and every result about
  stemming holds for every stemmer.
- Characters use ASCII meanings only:
  - `str.lower` changes only `A`-`Z`;
  - `str.isspace` is only the ASCII whitespace and the separators 0x1c-0x1f;
  - `\w` is only `[A-Za-z0-9_]`.

  Python's Unicode-aware behaviour for other characters is not modelled.
- The inverted index's `DOCUMENTS` literal, the `__main__` driver and
  `print_index` (__main__.py:3-12, 32-39) are not modelled.
  - The literal is not valid Python (`dict(1=...)`).
  - `print_index` is output only.

  Document ids are of an arbitrary type with equality.
- The insertion order of `word_index` is not kept. Only `print_index` would
  reveal it.
- Posting sets and count dictionaries are values. Python mutates a set or a
  dictionary in place, but neither is shared with any other name, so no
  aliasing is lost.
