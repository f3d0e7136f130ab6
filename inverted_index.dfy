/**
 The toy inverted index: `clean_data` takes commas and periods out of a
 document and strips the surrounding whitespace, and `add_document` records
 the document's id in the posting set of every space-separated field of the
 cleaned text. The module-level `word_index` (a `defaultdict(set)`) is the
 field `index` of a `WordIndex` object; document ids are of any type.
 */
module InvertedIndex {
  import opened Text

  /** `clean_data`. */
  function CleanData(data: string): string {
    Strip(RemoveChar(RemoveChar(data, ','), '.'))
  }

  /** The cleaned text holds no comma and no period, and is empty or
      neither starts nor ends with whitespace. */
  lemma CleanDataShape(data: string)
    ensures var r := CleanData(data);
            && ',' !in r && '.' !in r
            && (r == [] || (!IsSpace(r[0]) && !IsSpace(r[|r| - 1])))
  {
    var s := RemoveChar(RemoveChar(data, ','), '.');
    assert ',' !in s by {
      var t := RemoveChar(data, ',');
      if ',' in s {
        var i :| 0 <= i < |s| && s[i] == ',';
        RemoveCharKeeps(t, '.', ',');
        CountPositive(s, ',', i);
        CountZero(t, ',');
      }
    }
    StripKeepsAbsent(s, ',');
    StripKeepsAbsent(s, '.');
    StripShape(s);
  }

  /** Text that is already clean is left as it is. */
  lemma CleanDataFixed(s: string)
    requires ',' !in s && '.' !in s
    requires s == [] || (!IsSpace(s[0]) && !IsSpace(s[|s| - 1]))
    ensures CleanData(s) == s
  {
    RemoveAbsent(s, ',');
    RemoveAbsent(s, '.');
    StripFixed(s);
  }

  /** Cleaning twice is cleaning once. */
  lemma CleanDataIdempotent(data: string)
    ensures CleanData(CleanData(data)) == CleanData(data)
  {
    CleanDataShape(data);
    CleanDataFixed(CleanData(data));
  }

  /** The fields `add_document` indexes: no field holds a comma, a period or
      a space, and joining them with spaces gives back the cleaned text. */
  lemma FieldsClean(data: string)
    ensures var fs := Split(CleanData(data), ' ');
            && Join(fs, ' ') == CleanData(data)
            && forall f :: f in fs ==> ',' !in f && '.' !in f && ' ' !in f
  {
    var s := CleanData(data);
    CleanDataShape(data);
    JoinSplit(s, ' ');
    SplitFieldsHaveNoSep(s, ' ');
    SplitFieldsFrom(s, ' ');
  }

  // ---------------------------------------------------------------------
  // word_index[word].add(document_id)

  /** The posting set of `w`; the `defaultdict(set)` reads a missing key as
      the empty set. */
  function Postings<Id(==)>(m: map<string, set<Id>>, w: string): set<Id> {
    if w in m then m[w] else {}
  }

  /** The index after `id` is added to the posting set of each of `ws`, in order. */
  function AddPostings<Id(==)>(m: map<string, set<Id>>, ws: seq<string>, id: Id): map<string, set<Id>> {
    if ws == [] then m
    else
      var p := AddPostings(m, ws[..|ws| - 1], id);
      var w := ws[|ws| - 1];
      p[w := Postings(p, w) + {id}]
  }

  /** Exactly the listed words gain `id`, and nothing else changes: a key is
      present when it was present or is listed, and its posting set is the
      old one, plus `id` if it is listed. */
  lemma {:induction false} AddPostingsExact<Id>(m: map<string, set<Id>>, ws: seq<string>, id: Id)
    ensures forall k :: k in AddPostings(m, ws, id) <==> k in m || k in ws
    ensures forall k :: Postings(AddPostings(m, ws, id), k) == Postings(m, k) + (if k in ws then {id} else {})
  {
    if ws != [] {
      var q := ws[..|ws| - 1];
      AddPostingsExact(m, q, id);
      assert ws == q + [ws[|ws| - 1]];
      assert forall k :: k in ws <==> k in q || k == ws[|ws| - 1];
    }
  }

  /** After the call every listed word's posting set holds `id`. */
  lemma {:induction false} AddPostingsRecords<Id>(m: map<string, set<Id>>, ws: seq<string>, id: Id)
    ensures forall w :: w in ws ==> w in AddPostings(m, ws, id) && id in AddPostings(m, ws, id)[w]
  {
    AddPostingsExact(m, ws, id);
  }

  /** Posting sets only grow: no key and no id is lost, and the keys not
      listed keep their posting sets. */
  lemma {:induction false} AddPostingsGrows<Id>(m: map<string, set<Id>>, ws: seq<string>, id: Id)
    ensures var r := AddPostings(m, ws, id);
            && (forall k :: k in m ==> k in r && m[k] <= r[k])
            && (forall k :: k !in ws ==> (k in r <==> k in m) && Postings(r, k) == Postings(m, k))
  {
    var r := AddPostings(m, ws, id);
    AddPostingsExact(m, ws, id);
    forall k | k in m
      ensures k in r && m[k] <= r[k]
    {
      assert Postings(m, k) == m[k] && Postings(r, k) == r[k];
    }
  }

  /** Adding the same words for the same id again changes nothing more. */
  lemma AddPostingsIdempotent<Id>(m: map<string, set<Id>>, ws: seq<string>, id: Id)
    ensures AddPostings(AddPostings(m, ws, id), ws, id) == AddPostings(m, ws, id)
  {
    var once := AddPostings(m, ws, id);
    var twice := AddPostings(once, ws, id);
    AddPostingsExact(m, ws, id);
    AddPostingsExact(once, ws, id);
    forall k | k in twice
      ensures k in once && twice[k] == once[k]
    {
      assert Postings(twice, k) == Postings(once, k);
    }
  }

  /** The order in which documents are added does not change the index. */
  lemma AddPostingsCommute<Id>(m: map<string, set<Id>>, ws: seq<string>, a: Id, vs: seq<string>, b: Id)
    ensures AddPostings(AddPostings(m, ws, a), vs, b) == AddPostings(AddPostings(m, vs, b), ws, a)
  {
    var ab := AddPostings(AddPostings(m, ws, a), vs, b);
    var ba := AddPostings(AddPostings(m, vs, b), ws, a);
    AddPostingsExact(m, ws, a);
    AddPostingsExact(AddPostings(m, ws, a), vs, b);
    AddPostingsExact(m, vs, b);
    AddPostingsExact(AddPostings(m, vs, b), ws, a);
    forall k | k in ab
      ensures k in ba && ab[k] == ba[k]
    {
      assert Postings(ab, k) == Postings(ba, k);
    }
  }

  class WordIndex<Id(==)> {
    /** `word_index`: each word's set of document ids. */
    var index: map<string, set<Id>>

    /** `defaultdict(lambda: set())`: empty. */
    constructor ()
      ensures index == map[]
    {
      index := map[];
    }

    /** `add_document`: every field of the cleaned text gains `id`. */
    method AddDocument(id: Id, data: string)
      modifies this
      ensures index == AddPostings(old(index), Split(CleanData(data), ' '), id)
    {
      var cleaned := CleanData(data);
      var fields := Split(cleaned, ' ');
      for i := 0 to |fields|
        invariant index == AddPostings(old(index), fields[..i], id)
      {
        assert fields[..i + 1][..i] == fields[..i];
        var word := fields[i];
        var postings := if word in index then index[word] else {};
        index := index[word := postings + {id}];
      }
      assert fields[..|fields|] == fields;
    }
  }
}
