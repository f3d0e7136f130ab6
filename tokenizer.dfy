/**
 `WordTokenizer`: the object whose `words` dictionary and `stopwords` set
 are filled and rewritten in place. Each method runs the source's loops and
 is proved to leave the state that the matching function of `Normalizer`
 or `Report` describes; the stemmer is supplied at construction.
 */
module Tokenizer {
  import opened Text
  import opened CountMaps
  import opened Normalizer
  import opened Report

  class WordTokenizer {
    /** `self.words`: the vocabulary counts, in insertion order. */
    var words: CountMap
    /** `self.stopwords`. */
    var stopwords: set<string>
    /** `stem_word`: the stemmer, an outside capability. */
    const stem: string -> string

    ghost predicate Valid()
      reads this
    {
      words.Valid()
    }

    constructor (stem: string -> string)
      ensures Valid() && words == Empty && stopwords == {} && this.stem == stem
    {
      words := Empty;
      stopwords := {};
      this.stem := stem;
    }

    /** `_load_stopwords`, given the lines of the stopword file. */
    method LoadStopwords(lines: seq<string>)
      requires Valid()
      modifies this
      ensures Valid() && words == old(words)
      ensures stopwords == old(stopwords) + StopwordsOf(lines)
    {
      for i := 0 to |lines|
        invariant words == old(words)
        invariant stopwords == old(stopwords) + StopwordsOf(lines[..i])
      {
        assert lines[..i + 1][..i] == lines[..i];
        var word := Normalize(lines[i]);
        if word == "" {
          continue;
        }
        stopwords := stopwords + {word};
      }
      assert lines[..|lines|] == lines;
    }

    /** `load_file`, given the lines of the file. */
    method LoadFile(lines: seq<string>)
      requires Valid()
      modifies this
      ensures Valid() && stopwords == old(stopwords)
      ensures words == LoadLines(old(words), lines)
    {
      for i := 0 to |lines|
        invariant Valid() && stopwords == old(stopwords)
        invariant words == LoadLines(old(words), lines[..i])
      {
        assert lines[..i + 1][..i] == lines[..i];
        CountWords(Split(Normalize(lines[i]), ' '));
      }
      assert lines[..|lines|] == lines;
    }

    /** The inner loop of `load_file`: `self.words[word] += 1` for each
        word of one line. */
    method CountWords(fields: seq<string>)
      requires Valid()
      modifies this
      ensures Valid() && stopwords == old(stopwords)
      ensures words == AddEach(old(words), fields)
    {
      for j := 0 to |fields|
        invariant Valid() && stopwords == old(stopwords)
        invariant words == AddEach(old(words), fields[..j])
      {
        assert fields[..j + 1][..j] == fields[..j];
        words := Add(words, fields[j], 1);
      }
      assert fields[..|fields|] == fields;
    }

    /** `load_files`, given the contents of the `.txt` files the walk finds,
        in the order it finds them. */
    method LoadFiles(files: seq<seq<string>>)
      requires Valid()
      modifies this
      ensures Valid() && stopwords == old(stopwords)
      ensures words == Normalizer.LoadFiles(old(words), files)
    {
      for i := 0 to |files|
        invariant Valid() && stopwords == old(stopwords)
        invariant words == Normalizer.LoadFiles(old(words), files[..i])
      {
        assert files[..i + 1][..i] == files[..i];
        LoadFile(files[i]);
      }
      assert files[..|files|] == files;
    }

    /** `clean_tokens`: the punctuation pass over a snapshot of the keys,
        then the stemming pass over a new snapshot. */
    method CleanTokens()
      requires Valid()
      modifies this
      ensures Valid() && stopwords == old(stopwords)
      ensures words == Normalizer.CleanTokens(old(words), stem, stopwords)
    {
      CleanPunctuation();
      var stemmed := StemCounts();
      MergeStemmed(stemmed);
    }

    /** The first loop of `clean_tokens`: over a snapshot of the keys, drop
        each stopword, and drop each punctuated word after merging its count
        into its cleaned form by the condition of line 88. */
    method CleanPunctuation()
      requires Valid()
      modifies this
      ensures Valid() && stopwords == old(stopwords)
      ensures words == Normalizer.CleanPunctuation(old(words), stopwords)
    {
      var snapshot := words.keys;
      for i := 0 to |snapshot|
        invariant Valid() && stopwords == old(stopwords)
        invariant words == PassOne(old(words), snapshot[..i], stopwords)
      {
        PassOneStep(old(words), snapshot, stopwords, i);
        CleanWord(snapshot[i]);
      }
      assert snapshot[..|snapshot|] == snapshot;
    }

    /** One iteration of the first loop, for the snapshot key `word`. */
    method CleanWord(word: string)
      requires Valid() && word in words.count
      modifies this
      ensures Valid() && stopwords == old(stopwords)
      ensures words == CleanStep(old(words), word, stopwords)
    {
      if Lower(word) in stopwords {
        words := Delete(words, word);
        return;
      }
      if HasNonWord(word) {
        var cleaned := RemoveNonWord(word);
        if cleaned != "" && Lower(cleaned) in stopwords {
          words := Add(words, cleaned, words.count[word]);
        }
        words := Delete(words, word);
        return;
      }
    }

    /** The second loop of `clean_tokens`: the side map `stemmed` over a
        snapshot of the keys; the counts are not changed. */
    method StemCounts() returns (stemmed: CountMap)
      requires Valid()
      ensures stemmed == Normalizer.StemCounts(words, words.keys, stem, stopwords)
    {
      stemmed := Empty;
      var keys := words.keys;
      for i := 0 to |keys|
        invariant stemmed == Normalizer.StemCounts(words, keys[..i], stem, stopwords)
      {
        StemCountsStep(words, keys, stem, stopwords, i);
        var word := keys[i];
        var stemmedWord := stem(word);
        if stemmedWord != word && stemmedWord !in stopwords {
          stemmed := Add(stemmed, stemmedWord, words.count[word]);
        }
      }
      assert keys[..|keys|] == keys;
    }

    /** The last loop of `clean_tokens`: add each entry of `stemmed` back. */
    method MergeStemmed(stemmed: CountMap)
      requires Valid()
      modifies this
      ensures Valid() && stopwords == old(stopwords)
      ensures words == MergeInto(old(words), stemmed, stemmed.keys)
    {
      var items := stemmed.keys;
      for i := 0 to |items|
        invariant stopwords == old(stopwords)
        invariant words == MergeInto(old(words), stemmed, items[..i])
      {
        MergeIntoStep(old(words), stemmed, items, i);
        words := Add(words, items[i], Get(stemmed, items[i]));
      }
      assert items[..|items|] == items;
    }

    /** The rows `run` writes: the header, then one row per entry of `words`
        in descending count order, ties in insertion order. */
    method ReportRows() returns (rows: seq<string>)
      requires Valid()
      ensures |rows| == |words.keys| + 1 && rows[0] == Header
      ensures forall i :: 1 <= i < |rows| ==> rows[i] == Row(SortByCount(Items(words))[i - 1])
      ensures CountsDescend(rows)
    {
      var sorted := SortByCount(Items(words));
      rows := [Header];
      for i := 0 to |sorted|
        invariant |rows| == i + 1 && rows[0] == Header
        invariant forall j :: 1 <= j < |rows| ==> rows[j] == Row(sorted[j - 1])
      {
        rows := rows + [Row(sorted[i])];
      }
      RowsOrdered(sorted, rows);
    }

    /** `run`: load the stopwords, load the corpus, clean, report. */
    method Run(stopwordLines: seq<string>, files: seq<seq<string>>) returns (rows: seq<string>)
      requires Valid()
      modifies this
      ensures Valid()
      ensures stopwords == old(stopwords) + StopwordsOf(stopwordLines)
      ensures words == Normalizer.CleanTokens(Normalizer.LoadFiles(old(words), files), stem, stopwords)
      ensures |rows| == |words.keys| + 1 && rows[0] == Header
      ensures forall i :: 1 <= i < |rows| ==> rows[i] == Row(SortByCount(Items(words))[i - 1])
      ensures CountsDescend(rows)
    {
      LoadStopwords(stopwordLines);
      LoadFiles(files);
      CleanTokens();
      rows := ReportRows();
    }
  }
}
