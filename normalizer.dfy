/**
 The vocabulary normaliser of `WordTokenizer` as functions on values:
 stopword loading, corpus ingestion, and the two passes of `clean_tokens`.
 Each function follows its loop in the source element by element, so the
 loops of the class `Tokenizer.WordTokenizer` are proved equal to them;
 the lemmas here state what the source promises about them.
 */
module Normalizer {
  import opened Text
  import opened CountMaps

  /** `line.lower().strip()`. */
  function Normalize(line: string): string {
    Strip(Lower(line))
  }

  // ---------------------------------------------------------------------
  // _load_stopwords (tokenizer.py:37-43)

  /** The words `_load_stopwords` adds for `lines`, read in order. */
  function StopwordsOf(lines: seq<string>): (r: set<string>)
    ensures "" !in r
  {
    if lines == [] then {}
    else
      var w := Normalize(lines[|lines| - 1]);
      StopwordsOf(lines[..|lines| - 1]) + (if w == "" then {} else {w})
  }

  /** A word is added exactly when it is the normalised form of some line
      and is not empty. */
  lemma {:induction false} StopwordsOfMembers(lines: seq<string>, w: string)
    ensures w in StopwordsOf(lines) <==> w != "" && exists i :: 0 <= i < |lines| && Normalize(lines[i]) == w
  {
    if lines != [] {
      var n := |lines| - 1;
      var p, x := lines[..n], Normalize(lines[n]);
      StopwordsOfMembers(p, w);
      assert StopwordsOf(lines) == StopwordsOf(p) + (if x == "" then {} else {x});
      assert forall i :: 0 <= i < n ==> lines[i] == p[i];
    }
  }

  // ---------------------------------------------------------------------
  // load_file (tokenizer.py:49-55)

  /** The fields of one line: `line.lower().strip().split(" ")`. */
  function Fields(line: string): seq<string> {
    Split(Normalize(line), ' ')
  }

  /** `words[word] += 1` for each word of `ws`, in order. */
  function AddEach(c: CountMap, ws: seq<string>): (r: CountMap)
    requires c.Valid()
    ensures r.Valid()
  {
    if ws == [] then c else Add(AddEach(c, ws[..|ws| - 1]), ws[|ws| - 1], 1)
  }

  /** Each key's count rises by the number of times it occurs in `ws`. */
  lemma {:induction false} AddEachGet(c: CountMap, ws: seq<string>, k: string)
    requires c.Valid()
    ensures Get(AddEach(c, ws), k) == Get(c, k) + multiset(ws)[k]
  {
    if ws != [] {
      var p, w := ws[..|ws| - 1], ws[|ws| - 1];
      var q := AddEach(c, p);
      calc {
        Get(AddEach(c, ws), k);
        Get(Add(q, w, 1), k);
        Get(q, k) + (if w == k then 1 else 0);
        { AddEachGet(c, p, k); }
        Get(c, k) + multiset(p)[k] + (if w == k then 1 else 0);
        { assert ws == p + [w]; assert multiset(ws) == multiset(p) + multiset{w}; }
        Get(c, k) + multiset(ws)[k];
      }
    }
  }

  /** A key is present afterwards exactly when it was before or occurs in `ws`. */
  lemma {:induction false} AddEachHas(c: CountMap, ws: seq<string>, k: string)
    requires c.Valid()
    ensures k in AddEach(c, ws).count <==> k in c.count || k in ws
  {
    if ws != [] {
      var p, w := ws[..|ws| - 1], ws[|ws| - 1];
      AddEachHas(c, p, k);
      assert ws == p + [w];
    }
  }

  /** The total rises by exactly the number of words. */
  lemma {:induction false} AddEachTotal(c: CountMap, ws: seq<string>)
    requires c.Valid()
    ensures Total(AddEach(c, ws)) == Total(c) + |ws|
  {
    if ws != [] {
      AddEachTotal(c, ws[..|ws| - 1]);
      TotalAdd(AddEach(c, ws[..|ws| - 1]), ws[|ws| - 1], 1);
    }
  }

  /** What reading one line does to the counts. */
  function LoadLine(c: CountMap, line: string): (r: CountMap)
    requires c.Valid()
    ensures r.Valid()
  {
    AddEach(c, Fields(line))
  }

  /** One line raises the total by its number of fields, one more than the
      spaces of the normalised line (so a blank line adds one `""`); the keys
      that are not fields keep their counts, and each field's count rises by
      its number of occurrences in the line. */
  lemma LoadLineEffect(c: CountMap, line: string)
    requires c.Valid()
    ensures Total(LoadLine(c, line)) == Total(c) + |Fields(line)|
    ensures |Fields(line)| == Count(Normalize(line), ' ') + 1
    ensures Normalize(line) == "" ==> Fields(line) == [""]
    ensures forall k :: Get(LoadLine(c, line), k) == Get(c, k) + multiset(Fields(line))[k]
    ensures forall k :: k !in Fields(line) ==> (k in LoadLine(c, line).count <==> k in c.count)
  {
    AddEachTotal(c, Fields(line));
    SplitLength(Normalize(line), ' ');
    forall k
      ensures Get(LoadLine(c, line), k) == Get(c, k) + multiset(Fields(line))[k]
      ensures k !in Fields(line) ==> (k in LoadLine(c, line).count <==> k in c.count)
    {
      AddEachGet(c, Fields(line), k);
      AddEachHas(c, Fields(line), k);
    }
  }

  /** `load_file`: every line of the file in order. */
  function LoadLines(c: CountMap, lines: seq<string>): (r: CountMap)
    requires c.Valid()
    ensures r.Valid()
  {
    if lines == [] then c else LoadLine(LoadLines(c, lines[..|lines| - 1]), lines[|lines| - 1])
  }

  /** The number of fields of all lines together. */
  function FieldCount(lines: seq<string>): nat {
    if lines == [] then 0 else FieldCount(lines[..|lines| - 1]) + |Fields(lines[|lines| - 1])|
  }

  /** A file raises the total by the number of fields of its lines. */
  lemma {:induction false} LoadLinesTotal(c: CountMap, lines: seq<string>)
    requires c.Valid()
    ensures Total(LoadLines(c, lines)) == Total(c) + FieldCount(lines)
  {
    if lines != [] {
      LoadLinesTotal(c, lines[..|lines| - 1]);
      LoadLineEffect(LoadLines(c, lines[..|lines| - 1]), lines[|lines| - 1]);
    }
  }

  /** `load_files`: each found file's lines, in the order they are found. */
  function LoadFiles(c: CountMap, files: seq<seq<string>>): (r: CountMap)
    requires c.Valid()
    ensures r.Valid()
  {
    if files == [] then c else LoadLines(LoadFiles(c, files[..|files| - 1]), files[|files| - 1])
  }

  // ---------------------------------------------------------------------
  // clean_tokens, first loop (tokenizer.py:77-92)

  /** The key is deleted in its own iteration: a stopword, or punctuated. */
  predicate Dropped(w: string, stop: set<string>)
    ensures !Dropped(w, stop) ==> Lower(w) !in stop && RemoveNonWord(w) == w
  {
    Lower(w) in stop || HasNonWord(w)
  }

  /** The key's count goes to its cleaned form before it is deleted: the
      condition of line 88, as written, reached only by a punctuated key
      that is not itself a stopword. */
  predicate Merges(w: string, stop: set<string>)
    ensures Merges(w, stop) ==> Dropped(w, stop) && RemoveNonWord(w) != w
  {
    Lower(w) !in stop && HasNonWord(w)
    && RemoveNonWord(w) != "" && Lower(RemoveNonWord(w)) in stop
  }

  /** One iteration of the first loop, for snapshot key `w`. */
  function CleanStep(c: CountMap, w: string, stop: set<string>): (r: CountMap)
    requires c.Valid() && w in c.count
    ensures r.Valid()
    ensures forall j :: j in c.count && j != w ==> j in r.count
  {
    if Lower(w) in stop then Delete(c, w)
    else if HasNonWord(w) then
      var cleaned := RemoveNonWord(w);
      if cleaned != "" && Lower(cleaned) in stop then Delete(Add(c, cleaned, c.count[w]), w)
      else Delete(c, w)
    else c
  }

  /** What one iteration does: a dropped key is gone, a merging key's count
      is added to its cleaned form, every other key is untouched; the total
      loses the key's count unless it merged. */
  lemma CleanStepEffect(c: CountMap, w: string, stop: set<string>)
    requires c.Valid() && w in c.count
    ensures var r := CleanStep(c, w, stop);
            && (Dropped(w, stop) ==> w !in r.count)
            && (!Dropped(w, stop) ==> r == c)
            && (Merges(w, stop) ==> Get(r, RemoveNonWord(w)) == Get(c, RemoveNonWord(w)) + c.count[w]
                                    && RemoveNonWord(w) in r.count)
            && (forall j :: j != w && (j != RemoveNonWord(w) || !Merges(w, stop)) ==>
                  (j in r.count <==> j in c.count) && Get(r, j) == Get(c, j))
            && Total(r) == Total(c) - (if Dropped(w, stop) && !Merges(w, stop) then c.count[w] else 0)
  {
    if Merges(w, stop) {
      var a := Add(c, RemoveNonWord(w), c.count[w]);
      TotalAdd(c, RemoveNonWord(w), c.count[w]);
      TotalDelete(a, w);
    } else if Dropped(w, stop) {
      TotalDelete(c, w);
    }
  }

  /** The first loop after the snapshot keys `s` (a prefix of the snapshot)
      have been visited in order. */
  function PassOne(c: CountMap, s: seq<string>, stop: set<string>): (r: CountMap)
    requires c.Valid() && Distinct(s) && forall k :: k in s ==> k in c.count
    ensures r.Valid()
    ensures forall j :: j in c.count && j !in s ==> j in r.count
  {
    if s == [] then c
    else
      var n := |s| - 1;
      assert s[n] !in s[..n];
      CleanStep(PassOne(c, s[..n], stop), s[n], stop)
  }

  /** Visiting the next snapshot key: it is still present, and the pass
      over one more key is one more `CleanStep`. */
  lemma PassOneStep(c: CountMap, s: seq<string>, stop: set<string>, i: nat)
    requires c.Valid() && Distinct(s) && (forall k :: k in s ==> k in c.count) && i < |s|
    ensures s[i] in PassOne(c, s[..i], stop).count
    ensures PassOne(c, s[..i + 1], stop) == CleanStep(PassOne(c, s[..i], stop), s[i], stop)
  {
    assert s[..i + 1][..i] == s[..i];
    assert s[i] !in s[..i];
  }

  /** The part of `s` after `k`, or all of `s` when `k` is not in it. The
      merges that survive into `k` are those from these keys: `k`'s own
      iteration deletes what it held. */
  function After(s: seq<string>, k: string): seq<string> {
    if s == [] then []
    else if s[|s| - 1] == k then []
    else After(s[..|s| - 1], k) + [s[|s| - 1]]
  }

  /** The counts of the keys of `t` that merge into `k`. */
  function MergedMass(c: CountMap, t: seq<string>, stop: set<string>, k: string): nat {
    if t == [] then 0
    else
      var w := t[|t| - 1];
      MergedMass(c, t[..|t| - 1], stop, k) + (if Merges(w, stop) && RemoveNonWord(w) == k then Get(c, w) else 0)
  }

  /** Whether some key of `t` merges into `k`. */
  predicate MergesInto(t: seq<string>, stop: set<string>, k: string) {
    exists i :: 0 <= i < |t| && Merges(t[i], stop) && RemoveNonWord(t[i]) == k
  }

  /** Nothing merges into a key that is not a stopword or that is punctuated. */
  lemma {:induction false} MergedMassZero(c: CountMap, t: seq<string>, stop: set<string>, k: string)
    requires Lower(k) !in stop || HasNonWord(k)
    ensures MergedMass(c, t, stop, k) == 0 && !MergesInto(t, stop, k)
  {
    if t != [] {
      MergedMassZero(c, t[..|t| - 1], stop, k);
      assert forall i :: 0 <= i < |t| - 1 ==> t[..|t| - 1][i] == t[i];
    }
  }

  lemma MergesIntoSnoc(t: seq<string>, w: string, stop: set<string>, k: string)
    ensures MergesInto(t + [w], stop, k) <==> MergesInto(t, stop, k) || (Merges(w, stop) && RemoveNonWord(w) == k)
  {
    var u := t + [w];
    assert forall i :: 0 <= i < |t| ==> u[i] == t[i];
    assert u[|t|] == w;
    if MergesInto(t, stop, k) {
      var i :| 0 <= i < |t| && Merges(t[i], stop) && RemoveNonWord(t[i]) == k;
      assert Merges(u[i], stop) && RemoveNonWord(u[i]) == k;
    }
    if Merges(w, stop) && RemoveNonWord(w) == k {
      assert Merges(u[|t|], stop) && RemoveNonWord(u[|t|]) == k;
    }
  }

  /** The count of every key after the first loop has visited `s`, by an
      independent account: a key visited and dropped keeps nothing of its
      own, every other key keeps its count, and on top of that a key gets
      the counts of the keys after it in `s` that merge into it; it is
      present exactly when it kept its own entry or received a merge. */
  lemma {:induction false} PassOneCount(c: CountMap, s: seq<string>, stop: set<string>, k: string)
    requires c.Valid() && Distinct(s) && forall j :: j in s ==> j in c.count
    ensures Get(PassOne(c, s, stop), k)
            == (if k in s && Dropped(k, stop) then 0 else Get(c, k)) + MergedMass(c, After(s, k), stop, k)
    ensures k in PassOne(c, s, stop).count
            <==> (k in c.count && !(k in s && Dropped(k, stop))) || MergesInto(After(s, k), stop, k)
  {
    if s != [] {
      var n := |s| - 1;
      var p, w := s[..n], s[n];
      assert s == p + [w];
      assert w !in p;
      var q := PassOne(c, p, stop);
      assert PassOne(c, s, stop) == CleanStep(q, w, stop);
      PassOneCount(c, p, stop, k);
      AfterAbsent(p, w);
      if k == w {
        assert After(s, k) == [];
        StepOnOwnKey(c, q, p, w, stop);
      } else {
        assert After(s, k) == After(p, k) + [w];
        assert k in s <==> k in p;
        if Merges(w, stop) {
          PassOneCount(c, p, stop, w);
          MergedMassZero(c, p, stop, w);
        }
        StepOnOtherKey(c, q, After(p, k), w, stop, k);
      }
    }
  }

  /** PassOneCount, the iteration of `w` for `w` itself. */
  lemma StepOnOwnKey(c: CountMap, q: CountMap, p: seq<string>, w: string, stop: set<string>)
    requires q.Valid() && w in q.count
    requires Get(q, w) == Get(c, w) + MergedMass(c, p, stop, w)
    ensures Get(CleanStep(q, w, stop), w) == if Dropped(w, stop) then 0 else Get(c, w)
    ensures w in CleanStep(q, w, stop).count <==> !Dropped(w, stop)
  {
    CleanStepEffect(q, w, stop);
    if !Dropped(w, stop) {
      MergedMassZero(c, p, stop, w);
    }
  }

  /** PassOneCount, the iteration of `w` for another key `k`, whose merges
      so far came from the keys `a`. */
  lemma StepOnOtherKey(c: CountMap, q: CountMap, a: seq<string>, w: string, stop: set<string>, k: string)
    requires q.Valid() && w in q.count && k != w
    requires Merges(w, stop) ==> q.count[w] == Get(c, w)
    ensures Get(CleanStep(q, w, stop), k) - MergedMass(c, a + [w], stop, k) == Get(q, k) - MergedMass(c, a, stop, k)
    ensures (k in CleanStep(q, w, stop).count <==> k in q.count || (Merges(w, stop) && RemoveNonWord(w) == k))
    ensures MergesInto(a + [w], stop, k) <==> MergesInto(a, stop, k) || (Merges(w, stop) && RemoveNonWord(w) == k)
  {
    CleanStepEffect(q, w, stop);
    MergesIntoSnoc(a, w, stop, k);
    assert (a + [w])[..|a|] == a;
  }

  lemma {:induction false} AfterAbsent(s: seq<string>, k: string)
    requires k !in s
    ensures After(s, k) == s
  {
    if s != [] {
      AfterAbsent(s[..|s| - 1], k);
    }
  }

  /** A punctuated key never survives its own iteration. */
  lemma {:induction false} PassOnePunctuatedGone(c: CountMap, s: seq<string>, stop: set<string>)
    requires c.Valid() && Distinct(s) && forall j :: j in s ==> j in c.count
    ensures forall k :: k in PassOne(c, s, stop).count && HasNonWord(k) ==> k in c.count && k !in s
  {
    if s != [] {
      var n := |s| - 1;
      assert s[n] !in s[..n];
      PassOnePunctuatedGone(c, s[..n], stop);
      forall k | k in PassOne(c, s, stop).count && HasNonWord(k)
        ensures k in c.count && k !in s
      {
        CleanStepEffect(PassOne(c, s[..n], stop), s[n], stop);
      }
    }
  }

  /** A key that is neither a stopword nor punctuated keeps exactly its count. */
  lemma {:induction false} PassOneKeepsPlain(c: CountMap, s: seq<string>, stop: set<string>, k: string)
    requires c.Valid() && Distinct(s) && forall j :: j in s ==> j in c.count
    requires k in c.count && !HasNonWord(k) && Lower(k) !in stop
    ensures k in PassOne(c, s, stop).count && PassOne(c, s, stop).count[k] == c.count[k]
  {
    if s != [] {
      var n := |s| - 1;
      assert s[n] !in s[..n];
      PassOneKeepsPlain(c, s[..n], stop, k);
      CleanStepEffect(PassOne(c, s[..n], stop), s[n], stop);
    }
  }

  /** A key the first loop inserts is the non-empty cleaned form, itself a
      stopword, of a visited punctuated key. */
  lemma {:induction false} PassOneNewKeys(c: CountMap, s: seq<string>, stop: set<string>, k: string)
    requires c.Valid() && Distinct(s) && forall j :: j in s ==> j in c.count
    requires k in PassOne(c, s, stop).count && k !in c.count
    ensures k != "" && Lower(k) in stop && !HasNonWord(k)
    ensures exists i :: 0 <= i < |s| && Merges(s[i], stop) && RemoveNonWord(s[i]) == k
  {
    var n := |s| - 1;
    var p := s[..n];
    assert s[n] !in p;
    CleanStepEffect(PassOne(c, p, stop), s[n], stop);
    if k in PassOne(c, p, stop).count {
      PassOneNewKeys(c, p, stop, k);
      var i :| 0 <= i < |p| && Merges(p[i], stop) && RemoveNonWord(p[i]) == k;
      assert s[i] == p[i];
    } else {
      assert Merges(s[n], stop) && RemoveNonWord(s[n]) == k;
    }
  }

  /** The whole first loop, over the snapshot of all keys. */
  function CleanPunctuation(c: CountMap, stop: set<string>): (r: CountMap)
    requires c.Valid()
    ensures r.Valid()
    ensures forall k :: k in r.count ==> !HasNonWord(k)
  {
    PassOnePunctuatedGone(c, c.keys, stop);
    PassOne(c, c.keys, stop)
  }

  /** The snapshot's order matters. With `star` a stopword, `star,` visited
      before `star` loses its count: the merge is deleted with `star`. */
  lemma MergeLostWhenStopwordLater()
    ensures "star" !in CleanPunctuation(CountMap(["star,", "star"], map["star," := 3, "star" := 1]), {"star"}).count
  {
    var stop := {"star"};
    StarFacts();
    var c := CountMap(["star,", "star"], map["star," := 3, "star" := 1]);
    assert c.keys[..1] == ["star,"] && ["star,"][..0] == [];
    var a := CleanStep(c, "star,", stop);
    CleanStepEffect(c, "star,", stop);
    assert PassOne(c, c.keys, stop) == CleanStep(a, "star", stop);
    CleanStepEffect(a, "star", stop);
  }

  /** Visited after `star`, `star,` restores `star` with its own count. */
  lemma MergeKeptWhenStopwordEarlier()
    ensures CleanPunctuation(CountMap(["star", "star,"], map["star," := 3, "star" := 1]), {"star"}).count == map["star" := 3]
  {
    var stop := {"star"};
    var c := CountMap(["star", "star,"], map["star," := 3, "star" := 1]);
    assert c.keys[..1] == ["star"] && ["star"][..0] == [];
    var a := CleanStep(c, "star", stop);
    assert PassOne(c, c.keys, stop) == CleanStep(a, "star,", stop);
    StopwordStarDeleted(c);
    PunctuatedStarMerged(a);
  }

  /** With no `star` key in the snapshot, `star,` inserts `star` and it stays. */
  lemma MergeKeptWhenStopwordAbsent()
    ensures CleanPunctuation(CountMap(["star,"], map["star," := 3]), {"star"}).count == map["star" := 3]
  {
    var c := CountMap(["star,"], map["star," := 3]);
    assert c.keys[..0] == [];
    assert PassOne(c, c.keys, {"star"}) == CleanStep(c, "star,", {"star"});
    PunctuatedStarMerged(c);
  }

  lemma StopwordStarDeleted(c: CountMap)
    requires c == CountMap(["star", "star,"], map["star," := 3, "star" := 1])
    ensures var a := CleanStep(c, "star", {"star"});
            (forall j :: j in a.count <==> j == "star,") && a.count["star,"] == 3
  {
    StarFacts();
    CleanStepEffect(c, "star", {"star"});
  }

  lemma PunctuatedStarMerged(a: CountMap)
    requires a.Valid() && (forall j :: j in a.count <==> j == "star,") && a.count["star,"] == 3
    ensures CleanStep(a, "star,", {"star"}).count == map["star" := 3]
  {
    StarFacts();
    var r := CleanStep(a, "star,", {"star"});
    CleanStepEffect(a, "star,", {"star"});
    assert forall j :: j in r.count <==> j == "star";
  }

  lemma StarFacts()
    ensures HasNonWord("star,") && RemoveNonWord("star,") == "star"
    ensures Lower("star") == "star" && Lower("star,") == "star,"
  {
    assert !IsWordChar("star,"[4]);
    assert RemoveNonWord(",") == "";
  }

  // ---------------------------------------------------------------------
  // clean_tokens, second loop and merge-back (tokenizer.py:95-103)

  /** A word feeds its stem: the stem differs from it and is not a stopword. */
  predicate Feeds(stem: string -> string, stop: set<string>, w: string) {
    stem(w) != w && stem(w) !in stop
  }

  /** The side map `stemmed` after the snapshot keys `ks` have been visited. */
  function StemCounts(c: CountMap, ks: seq<string>, stem: string -> string, stop: set<string>): (r: CountMap)
    ensures r.Valid()
  {
    if ks == [] then Empty
    else
      var d := StemCounts(c, ks[..|ks| - 1], stem, stop);
      var w := ks[|ks| - 1];
      if Feeds(stem, stop, w) then Add(d, stem(w), Get(c, w)) else d
  }

  /** One more key of `ks` visited. */
  lemma StemCountsStep(c: CountMap, ks: seq<string>, stem: string -> string, stop: set<string>, i: nat)
    requires i < |ks|
    ensures var d := StemCounts(c, ks[..i], stem, stop);
            StemCounts(c, ks[..i + 1], stem, stop)
            == if Feeds(stem, stop, ks[i]) then Add(d, stem(ks[i]), Get(c, ks[i])) else d
  {
    assert ks[..i + 1][..i] == ks[..i];
  }

  /** The words of `ks` that feed their stem, in order. */
  function Feeders(ks: seq<string>, stem: string -> string, stop: set<string>): seq<string> {
    if ks == [] then []
    else Feeders(ks[..|ks| - 1], stem, stop) + (if Feeds(stem, stop, ks[|ks| - 1]) then [ks[|ks| - 1]] else [])
  }

  /** The words of `ks` that feed the stem `k`, in order. */
  function FeedersOf(ks: seq<string>, stem: string -> string, stop: set<string>, k: string): seq<string> {
    if ks == [] then []
    else
      var w := ks[|ks| - 1];
      FeedersOf(ks[..|ks| - 1], stem, stop, k) + (if Feeds(stem, stop, w) && stem(w) == k then [w] else [])
  }

  /** Some word of `ks` feeds the stem `k`. */
  predicate SomeFeeds(ks: seq<string>, stem: string -> string, stop: set<string>, k: string) {
    exists i :: 0 <= i < |ks| && Feeds(stem, stop, ks[i]) && stem(ks[i]) == k
  }

  lemma SomeFeedsSnoc(ks: seq<string>, stem: string -> string, stop: set<string>, k: string)
    requires ks != []
    ensures var n := |ks| - 1;
            SomeFeeds(ks, stem, stop, k)
            <==> SomeFeeds(ks[..n], stem, stop, k) || (Feeds(stem, stop, ks[n]) && stem(ks[n]) == k)
  {
    var n := |ks| - 1;
    var p := ks[..n];
    if SomeFeeds(ks, stem, stop, k) {
      var i :| 0 <= i < |ks| && Feeds(stem, stop, ks[i]) && stem(ks[i]) == k;
      if i < n {
        assert p[i] == ks[i];
      }
    }
    if SomeFeeds(p, stem, stop, k) {
      var i :| 0 <= i < |p| && Feeds(stem, stop, p[i]) && stem(p[i]) == k;
      assert ks[i] == p[i];
    }
  }

  /** `stemmed[k]` is the sum of the counts of the words that feed `k`. */
  lemma {:induction false} StemCountsGet(c: CountMap, ks: seq<string>, stem: string -> string, stop: set<string>, k: string)
    ensures Get(StemCounts(c, ks, stem, stop), k) == SumOf(FeedersOf(ks, stem, stop, k), c.count)
  {
    if ks != [] {
      var n := |ks| - 1;
      var p, w := ks[..n], ks[n];
      var d := StemCounts(c, p, stem, stop);
      if Feeds(stem, stop, w) && stem(w) == k {
        calc {
          Get(StemCounts(c, ks, stem, stop), k);
          Get(Add(d, k, Get(c, w)), k);
          Get(d, k) + Look(c.count, w);
          { StemCountsGet(c, p, stem, stop, k); }
          SumOf(FeedersOf(p, stem, stop, k), c.count) + Look(c.count, w);
          { SumAppend(FeedersOf(p, stem, stop, k), w, c.count); }
          SumOf(FeedersOf(p, stem, stop, k) + [w], c.count);
          SumOf(FeedersOf(ks, stem, stop, k), c.count);
        }
      } else {
        calc {
          Get(StemCounts(c, ks, stem, stop), k);
          Get(d, k);
          { StemCountsGet(c, p, stem, stop, k); }
          SumOf(FeedersOf(p, stem, stop, k), c.count);
          { assert FeedersOf(ks, stem, stop, k) == FeedersOf(p, stem, stop, k); }
          SumOf(FeedersOf(ks, stem, stop, k), c.count);
        }
      }
    }
  }

  /** The side map holds the stem `k` exactly when some word feeds it. */
  lemma {:induction false} StemCountsHas(c: CountMap, ks: seq<string>, stem: string -> string, stop: set<string>, k: string)
    ensures k in StemCounts(c, ks, stem, stop).count <==> SomeFeeds(ks, stem, stop, k)
  {
    if ks != [] {
      StemCountsHas(c, ks[..|ks| - 1], stem, stop, k);
      SomeFeedsSnoc(ks, stem, stop, k);
    }
  }

  /** The side map holds, in all, the counts of the words that feed a stem;
      the other words contribute nothing. */
  lemma {:induction false} StemCountsTotal(c: CountMap, ks: seq<string>, stem: string -> string, stop: set<string>)
    ensures Total(StemCounts(c, ks, stem, stop)) == SumOf(Feeders(ks, stem, stop), c.count)
  {
    if ks != [] {
      var n := |ks| - 1;
      var p, w := ks[..n], ks[n];
      StemCountsTotal(c, p, stem, stop);
      if Feeds(stem, stop, w) {
        assert Feeders(ks, stem, stop) == Feeders(p, stem, stop) + [w];
        SumAppend(Feeders(p, stem, stop), w, c.count);
        TotalAdd(StemCounts(c, p, stem, stop), stem(w), Get(c, w));
      } else {
        assert Feeders(ks, stem, stop) == Feeders(p, stem, stop);
      }
    }
  }

  /** `for word, value in stemmed.items(): words[word] += value`, after the
      keys `ks` of `d` have been visited. */
  function MergeInto(c: CountMap, d: CountMap, ks: seq<string>): (r: CountMap)
    requires c.Valid()
    ensures r.Valid()
  {
    if ks == [] then c else Add(MergeInto(c, d, ks[..|ks| - 1]), ks[|ks| - 1], Get(d, ks[|ks| - 1]))
  }

  /** One more key of `ks` merged. */
  lemma MergeIntoStep(c: CountMap, d: CountMap, ks: seq<string>, i: nat)
    requires c.Valid() && i < |ks|
    ensures MergeInto(c, d, ks[..i + 1]) == Add(MergeInto(c, d, ks[..i]), ks[i], Get(d, ks[i]))
  {
    assert ks[..i + 1][..i] == ks[..i];
  }

  /** Merging adds `d`'s counts over `ks` and deletes nothing. */
  lemma {:induction false} MergeIntoGet(c: CountMap, d: CountMap, ks: seq<string>, k: string)
    requires c.Valid() && Distinct(ks)
    ensures Get(MergeInto(c, d, ks), k) == Get(c, k) + (if k in ks then Get(d, k) else 0)
    ensures k in MergeInto(c, d, ks).count <==> k in c.count || k in ks
  {
    if ks != [] {
      var n := |ks| - 1;
      assert ks[n] !in ks[..n];
      assert ks == ks[..n] + [ks[n]];
      MergeIntoGet(c, d, ks[..n], k);
    }
  }

  /** Merging raises the total by the sum of `d`'s counts over `ks`. */
  lemma {:induction false} MergeIntoTotal(c: CountMap, d: CountMap, ks: seq<string>)
    requires c.Valid()
    ensures Total(MergeInto(c, d, ks)) == Total(c) + SumOf(ks, d.count)
  {
    if ks != [] {
      var n := |ks| - 1;
      var p, w := ks[..n], ks[n];
      var before := MergeInto(c, d, p);
      assert ks == p + [w];
      calc {
        Total(MergeInto(c, d, ks));
        Total(Add(before, w, Get(d, w)));
        { TotalAdd(before, w, Get(d, w)); }
        Total(before) + Look(d.count, w);
        { MergeIntoTotal(c, d, p); }
        Total(c) + SumOf(p, d.count) + Look(d.count, w);
        { SumAppend(p, w, d.count); }
        Total(c) + SumOf(ks, d.count);
      }
    }
  }

  /** The stemming pass: the side map over a snapshot of all keys, added back. */
  function StemPass(c: CountMap, stem: string -> string, stop: set<string>): (r: CountMap)
    requires c.Valid()
    ensures r.Valid()
  {
    var d := StemCounts(c, c.keys, stem, stop);
    MergeInto(c, d, d.keys)
  }

  /** The stemming pass removes no key and lowers no count: each key gains
      the counts of the words that feed it, and a key is new only when some
      word feeds it. */
  lemma StemPassGet(c: CountMap, stem: string -> string, stop: set<string>, k: string)
    requires c.Valid()
    ensures Get(StemPass(c, stem, stop), k) == Get(c, k) + SumOf(FeedersOf(c.keys, stem, stop, k), c.count)
    ensures k in c.count ==> k in StemPass(c, stem, stop).count
    ensures k in StemPass(c, stem, stop).count && k !in c.count ==>
              SomeFeeds(c.keys, stem, stop, k)
  {
    var d := StemCounts(c, c.keys, stem, stop);
    MergeIntoGet(c, d, d.keys, k);
    StemCountsGet(c, c.keys, stem, stop, k);
    StemCountsHas(c, c.keys, stem, stop, k);
  }

  /** The stemming pass raises the total by exactly the counts of the words
      that feed a stem. */
  lemma StemPassTotal(c: CountMap, stem: string -> string, stop: set<string>)
    requires c.Valid()
    ensures Total(StemPass(c, stem, stop)) == Total(c) + SumOf(Feeders(c.keys, stem, stop), c.count)
  {
    var d := StemCounts(c, c.keys, stem, stop);
    MergeIntoTotal(c, d, d.keys);
    StemCountsTotal(c, c.keys, stem, stop);
  }

  /** `clean_tokens` as a whole. */
  function CleanTokens(c: CountMap, stem: string -> string, stop: set<string>): (r: CountMap)
    requires c.Valid()
    ensures r.Valid()
  {
    StemPass(CleanPunctuation(c, stop), stem, stop)
  }

  /** A word that is neither a stopword nor punctuated comes through
      `clean_tokens` with at least its count. */
  lemma CleanTokensKeepsPlain(c: CountMap, stem: string -> string, stop: set<string>, k: string)
    requires c.Valid() && k in c.count && !HasNonWord(k) && Lower(k) !in stop
    ensures k in CleanTokens(c, stem, stop).count && Get(CleanTokens(c, stem, stop), k) >= c.count[k]
  {
    PassOneKeepsPlain(c, c.keys, stop, k);
    StemPassGet(CleanPunctuation(c, stop), stem, stop, k);
  }
}
