/**
 The report step of `WordTokenizer.run`: the header `word,count`, then one
 row `word,count` per vocabulary entry, the entries taken from `items()` in
 insertion order and put in descending count order by Python's stable
 `sorted(..., key=count, reverse=True)`.
 */
module Report {
  import opened CountMaps

  datatype Option<T> = None | Some(value: T)

  /** A `(word, count)` pair of `words.items()`. */
  type Entry = (string, nat)

  /** `words.items()`, in insertion order: one entry per key of the
      dictionary, no key twice, each with its stored count. */
  function Items(c: CountMap): (r: seq<Entry>)
    requires c.Valid()
    ensures |r| == |c.keys|
    ensures forall k :: k in c.count <==> exists i :: 0 <= i < |r| && r[i].0 == k
    ensures forall i, j :: 0 <= i < j < |r| ==> r[i].0 != r[j].0
    ensures forall i :: 0 <= i < |r| ==> r[i].0 in c.count && r[i].1 == c.count[r[i].0]
  {
    var r := seq(|c.keys|, i requires 0 <= i < |c.keys| => (c.keys[i], Get(c, c.keys[i])));
    assert forall i :: 0 <= i < |r| ==> r[i].0 == c.keys[i] && c.keys[i] in c.count && r[i].1 == c.count[c.keys[i]];
    assert forall k :: k in c.count ==> exists i :: 0 <= i < |r| && r[i].0 == k by {
      forall k | k in c.count
        ensures exists i :: 0 <= i < |r| && r[i].0 == k
      {
        var i :| 0 <= i < |c.keys| && c.keys[i] == k;
        assert r[i].0 == k;
      }
    }
    r
  }

  predicate NonIncreasing(s: seq<Entry>) {
    forall i, j :: 0 <= i < j < |s| ==> s[i].1 >= s[j].1
  }

  /** Puts `e` into the descending list `t` ahead of every entry whose count
      is not larger, so that an entry inserted later stays after the equal
      entries already there. */
  function Insert(e: Entry, t: seq<Entry>): (r: seq<Entry>)
    ensures multiset(r) == multiset{e} + multiset(t)
    ensures |r| == |t| + 1 && (r[0] == e || (t != [] && r[0] == t[0]))
  {
    if t == [] || t[0].1 <= e.1 then [e] + t
    else
      assert t == [t[0]] + t[1..];
      [t[0]] + Insert(e, t[1..])
  }

  /** Inserting into a descending list keeps it descending. */
  lemma {:induction false} InsertSorted(e: Entry, t: seq<Entry>)
    requires NonIncreasing(t)
    ensures NonIncreasing(Insert(e, t))
  {
    if !(t == [] || t[0].1 <= e.1) {
      var rest := Insert(e, t[1..]);
      InsertSorted(e, t[1..]);
      var r := Insert(e, t);
      assert r == [t[0]] + rest;
      assert t[0].1 >= rest[0].1;
      forall i, j | 0 <= i < j < |r|
        ensures r[i].1 >= r[j].1
      {
        if i == 0 {
          assert r[j] == rest[j - 1];
          assert rest[0].1 >= rest[j - 1].1;
        } else {
          assert r[i] == rest[i - 1] && r[j] == rest[j - 1];
        }
      }
    }
  }

  /** The stable sort by descending count: a permutation of `s` whose counts
      do not increase. */
  function SortByCount(s: seq<Entry>): (r: seq<Entry>)
    ensures multiset(r) == multiset(s) && |r| == |s|
    ensures NonIncreasing(r)
  {
    if s == [] then []
    else
      assert s == [s[0]] + s[1..];
      InsertSorted(s[0], SortByCount(s[1..]));
      Insert(s[0], SortByCount(s[1..]))
  }

  /** The entries of `s` with count `v`, in order. */
  function WithCount(s: seq<Entry>, v: nat): seq<Entry> {
    if s == [] then [] else (if s[0].1 == v then [s[0]] else []) + WithCount(s[1..], v)
  }

  /** Among the entries with count `v`, an inserted entry comes first. */
  lemma {:induction false} InsertWithCount(e: Entry, t: seq<Entry>, v: nat)
    ensures WithCount(Insert(e, t), v) == (if e.1 == v then [e] else []) + WithCount(t, v)
  {
    if t == [] || t[0].1 <= e.1 {
      assert ([e] + t)[1..] == t;
    } else {
      var r := Insert(e, t[1..]);
      var head := if t[0].1 == v then [t[0]] else [];
      var mine := if e.1 == v then [e] else [];
      assert head == [] || mine == [];
      calc {
        WithCount(Insert(e, t), v);
        WithCount([t[0]] + r, v);
        { assert ([t[0]] + r)[1..] == r; }
        head + WithCount(r, v);
        { InsertWithCount(e, t[1..], v); }
        head + (mine + WithCount(t[1..], v));
        mine + (head + WithCount(t[1..], v));
        mine + WithCount(t, v);
      }
    }
  }

  /** Sorting is stable: entries with equal counts keep their order. */
  lemma {:induction false} SortStable(s: seq<Entry>, v: nat)
    ensures WithCount(SortByCount(s), v) == WithCount(s, v)
  {
    if s != [] {
      SortStable(s[1..], v);
      InsertWithCount(s[0], SortByCount(s[1..]), v);
    }
  }

  // ---------------------------------------------------------------------
  // Rows: f"{word},{count}"

  const Header: string := "word,count"

  predicate IsDigit(c: char) {
    48 <= c as int <= 57
  }

  function Digit(d: nat): char
    requires d < 10
  {
    (48 + d) as char
  }

  /** The decimal numeral of `n`, as `str(n)` writes it. */
  function Decimal(n: nat): (r: string)
    ensures |r| >= 1 && forall i :: 0 <= i < |r| ==> IsDigit(r[i])
    ensures (|r| > 1 || n > 0) ==> r[0] != '0'
  {
    if n < 10 then [Digit(n)] else Decimal(n / 10) + [Digit(n % 10)]
  }

  /** The value of a numeral. */
  function ParseDecimal(s: string): nat
    requires forall i :: 0 <= i < |s| ==> IsDigit(s[i])
  {
    if s == [] then 0
    else
      assert IsDigit(s[|s| - 1]);
      ParseDecimal(s[..|s| - 1]) * 10 + (s[|s| - 1] as int - 48)
  }

  /** Reading a numeral back gives the number written. */
  lemma {:induction false} DecimalRoundTrip(n: nat)
    ensures ParseDecimal(Decimal(n)) == n
  {
    if n >= 10 {
      DecimalRoundTrip(n / 10);
      var d := Decimal(n);
      assert d[..|d| - 1] == Decimal(n / 10);
    }
  }

  /** One data row. */
  function Row(e: Entry): string {
    e.0 + "," + Decimal(e.1)
  }

  /** The position of the last `c` in `s`, or -1. */
  function LastIndexOf(s: string, c: char): (r: int)
    ensures -1 <= r < |s|
    ensures r >= 0 ==> s[r] == c && forall i :: r < i < |s| ==> s[i] != c
    ensures r == -1 ==> c !in s
  {
    if s == [] then -1 else if s[|s| - 1] == c then |s| - 1 else LastIndexOf(s[..|s| - 1], c)
  }

  /** Reads a row back: the word is everything before the last comma, the
      count the numeral after it. */
  function ParseRow(row: string): Option<Entry> {
    var i := LastIndexOf(row, ',');
    if i < 0 then None
    else
      var tail := row[i + 1..];
      if tail != [] && forall j :: 0 <= j < |tail| ==> IsDigit(tail[j]) then Some((row[..i], ParseDecimal(tail)))
      else None
  }

  /** Every row reads back as the entry it was written from, whatever
      characters the word holds. */
  lemma RowRoundTrip(e: Entry)
    ensures ParseRow(Row(e)) == Some(e)
  {
    var row, d := Row(e), Decimal(e.1);
    assert row == e.0 + [','] + d;
    assert ',' !in d by {
      forall i | 0 <= i < |d|
        ensures d[i] != ','
      {
        assert IsDigit(d[i]);
      }
    }
    assert row[|e.0|] == ',';
    assert forall i :: |e.0| < i < |row| ==> row[i] == d[i - |e.0| - 1];
    assert LastIndexOf(row, ',') == |e.0|;
    assert row[|e.0| + 1..] == d;
    assert row[..|e.0|] == e.0;
    DecimalRoundTrip(e.1);
  }

  /** The counts read back from the data rows (all rows after the header)
      do not increase. */
  predicate CountsDescend(rows: seq<string>) {
    forall i, j :: 1 <= i < j < |rows| ==>
      ParseRow(rows[i]).Some? && ParseRow(rows[j]).Some? && ParseRow(rows[i]).value.1 >= ParseRow(rows[j]).value.1
  }

  /** Rows written from a descending list read back with descending counts. */
  lemma RowsOrdered(sorted: seq<Entry>, rows: seq<string>)
    requires NonIncreasing(sorted) && |rows| == |sorted| + 1
    requires forall i :: 1 <= i < |rows| ==> rows[i] == Row(sorted[i - 1])
    ensures CountsDescend(rows)
  {
    forall i | 1 <= i < |rows|
      ensures ParseRow(rows[i]) == Some(sorted[i - 1])
    {
      RowRoundTrip(sorted[i - 1]);
    }
  }
}
