/**
 The string operations the tokenizer and the inverted index rely on:
 Python's str.lower, str.strip, str.split with a one-character separator,
 str.replace with an empty replacement and re.sub of the class \W.
 Characters are treated by their ASCII meaning (see README, "Left out").
 */
module Text {

  /** Python's str.isspace restricted to ASCII: tab to carriage return,
      the four separators 0x1c..0x1f, and the space. */
  predicate IsSpace(c: char) {
    var n := c as int;
    n == 32 || 9 <= n <= 13 || 28 <= n <= 31
  }

  /** A character of the regex class \w: an ASCII letter, digit or underscore. */
  predicate IsWordChar(c: char) {
    ('a' <= c <= 'z') || ('A' <= c <= 'Z') || ('0' <= c <= '9') || c == '_'
  }

  /** What `special_matcher.search(word)` finds: some character of \W. */
  predicate HasNonWord(s: string) {
    exists i :: 0 <= i < |s| && !IsWordChar(s[i])
  }

  function LowerChar(c: char): char {
    if 'A' <= c <= 'Z' then (c as int + 32) as char else c
  }

  /** str.lower, character by character. */
  function Lower(s: string): (r: string)
    ensures |r| == |s|
  {
    if s == [] then [] else [LowerChar(s[0])] + Lower(s[1..])
  }

  /** Lowering keeps the length, leaves no `A`-`Z`, turns each `A`-`Z`
      into its lower-case letter and leaves every other character as it is. */
  lemma {:induction false} LowerShape(s: string)
    ensures |Lower(s)| == |s|
    ensures forall i :: 0 <= i < |s| ==> !('A' <= Lower(s)[i] <= 'Z')
    ensures forall i :: 0 <= i < |s| && 'A' <= s[i] <= 'Z' ==> Lower(s)[i] as int == s[i] as int + 32
    ensures forall i :: 0 <= i < |s| && !('A' <= s[i] <= 'Z') ==> Lower(s)[i] == s[i]
  {
    if s != [] {
      LowerShape(s[1..]);
      var r := Lower(s);
      assert r == [LowerChar(s[0])] + Lower(s[1..]);
      forall i | 1 <= i < |s|
        ensures r[i] == Lower(s[1..])[i - 1] && s[i] == s[1..][i - 1]
      {
      }
    }
  }

  /** Number of occurrences of `c` in `s`. */
  function Count(s: string, c: char): nat {
    if s == [] then 0 else (if s[0] == c then 1 else 0) + Count(s[1..], c)
  }

  // ---------------------------------------------------------------------
  // str.strip

  /** Drops leading whitespace. */
  function StripLeft(s: string): string {
    if |s| > 0 && IsSpace(s[0]) then StripLeft(s[1..]) else s
  }

  /** Drops trailing whitespace. */
  function StripRight(s: string): string {
    if |s| > 0 && IsSpace(s[|s| - 1]) then StripRight(s[..|s| - 1]) else s
  }

  /** What StripLeft leaves is a suffix that does not start with whitespace,
      and what it cuts is whitespace. */
  lemma {:induction false} StripLeftShape(s: string)
    ensures var r := StripLeft(s);
            && |r| <= |s| && r == s[|s| - |r|..]
            && (r == [] || !IsSpace(r[0]))
            && (forall i :: 0 <= i < |s| - |r| ==> IsSpace(s[i]))
  {
    if |s| > 0 && IsSpace(s[0]) {
      var t := s[1..];
      StripLeftShape(t);
      var r := StripLeft(t);
      assert StripLeft(s) == r;
      assert t[|t| - |r|..] == s[|s| - |r|..];
      forall i | 0 <= i < |s| - |r|
        ensures IsSpace(s[i])
      {
        if i > 0 {
          assert s[i] == t[i - 1];
        }
      }
    }
  }

  /** What StripRight leaves is a prefix that does not end with whitespace,
      and what it cuts is whitespace. */
  lemma {:induction false} StripRightShape(s: string)
    ensures var r := StripRight(s);
            && |r| <= |s| && r == s[..|r|]
            && (r == [] || !IsSpace(r[|r| - 1]))
            && (forall i :: |r| <= i < |s| ==> IsSpace(s[i]))
  {
    if |s| > 0 && IsSpace(s[|s| - 1]) {
      StripRightShape(s[..|s| - 1]);
    }
  }

  /** Where the strip of `s` starts: the number of leading whitespace characters. */
  function StripStart(s: string): nat {
    StripLeftShape(s);
    |s| - |StripLeft(s)|
  }

  /** str.strip(). */
  function Strip(s: string): string {
    StripRight(StripLeft(s))
  }

  /** The strip is the longest middle part of `s` that neither starts nor
      ends with whitespace, everything cut off being whitespace. */
  lemma StripShape(s: string)
    ensures var r := Strip(s);
            && (r == [] || (!IsSpace(r[0]) && !IsSpace(r[|r| - 1])))
            && StripStart(s) + |r| <= |s| && r == s[StripStart(s)..StripStart(s) + |r|]
            && (forall j :: 0 <= j < StripStart(s) ==> IsSpace(s[j]))
            && (forall j :: StripStart(s) + |r| <= j < |s| ==> IsSpace(s[j]))
  {
    StripParts(s);
    StripLeftShape(s);
    StripRightShape(StripLeft(s));
  }

  /** The strip of `s` as a slice of `s`, with whitespace on both sides. */
  lemma StripParts(s: string)
    ensures var r := StripRight(StripLeft(s));
            && StripStart(s) + |r| <= |s| && r == s[StripStart(s)..StripStart(s) + |r|]
            && (forall j :: StripStart(s) + |r| <= j < |s| ==> IsSpace(s[j]))
  {
    var l := StripLeft(s);
    var k := StripStart(s);
    var r := StripRight(l);
    StripLeftShape(s);
    StripRightShape(l);
    assert l == s[k..];
    assert r == l[..|r|];
    forall j | k + |r| <= j < |s|
      ensures IsSpace(s[j])
    {
      assert s[j] == l[j - k];
    }
  }

  /** A string without surrounding whitespace is its own strip. */
  lemma StripFixed(s: string)
    requires s == [] || (!IsSpace(s[0]) && !IsSpace(s[|s| - 1]))
    ensures Strip(s) == s
  {
    assert StripLeft(s) == s;
    assert StripRight(s) == s;
  }

  /** Stripping twice is stripping once. */
  lemma StripIdempotent(s: string)
    ensures Strip(Strip(s)) == Strip(s)
  {
    StripShape(s);
    StripFixed(Strip(s));
  }

  /** Stripping takes out no character other than whitespace, so a
      character absent from `s` is absent from its strip. */
  lemma StripKeepsAbsent(s: string, c: char)
    requires c !in s
    ensures c !in Strip(s)
  {
    StripShape(s);
  }

  // ---------------------------------------------------------------------
  // str.replace(c, "") and re.sub(r"(\W)", "", s)

  /** `s.replace(c, "")`: every occurrence of `c` taken out. */
  function RemoveChar(s: string, c: char): (r: string)
    ensures c !in r
    ensures |r| == |s| - Count(s, c)
  {
    if s == [] then []
    else if s[0] == c then RemoveChar(s[1..], c)
    else [s[0]] + RemoveChar(s[1..], c)
  }

  /** Every other character is kept as often as it occurs. */
  lemma {:induction false} RemoveCharKeeps(s: string, c: char, d: char)
    requires d != c
    ensures Count(RemoveChar(s, c), d) == Count(s, d)
  {
    if s != [] {
      RemoveCharKeeps(s[1..], c, d);
      if s[0] != c {
        assert ([s[0]] + RemoveChar(s[1..], c))[1..] == RemoveChar(s[1..], c);
      }
    }
  }

  /** Taking out a character that is not there changes nothing. */
  lemma {:induction false} RemoveAbsent(s: string, c: char)
    requires c !in s
    ensures RemoveChar(s, c) == s
  {
    if s != [] {
      RemoveAbsent(s[1..], c);
    }
  }

  /** A character that occurs is counted. */
  lemma {:induction false} CountPositive(s: string, c: char, i: int)
    requires 0 <= i < |s| && s[i] == c
    ensures Count(s, c) > 0
  {
    if i > 0 {
      CountPositive(s[1..], c, i - 1);
    }
  }

  /** A character that does not occur has count 0. */
  lemma {:induction false} CountZero(s: string, c: char)
    requires c !in s
    ensures Count(s, c) == 0
  {
    if s != [] {
      CountZero(s[1..], c);
    }
  }

  /** Counting over a concatenation adds up. */
  lemma {:induction false} CountConcat(a: string, b: string, c: char)
    ensures Count(a + b, c) == Count(a, c) + Count(b, c)
  {
    if a == [] {
      assert a + b == b;
    } else {
      CountConcat(a[1..], b, c);
      assert (a + b)[0] == a[0] && (a + b)[1..] == a[1..] + b;
    }
  }

  /** Taking `c` out of a string with a given first character. */
  lemma RemoveCharCons(d: char, t: string, c: char)
    ensures RemoveChar([d] + t, c) == (if d == c then [] else [d]) + RemoveChar(t, c)
  {
    var s := [d] + t;
    assert s[0] == d && s[1..] == t;
  }

  /** Taking `c` out works piece by piece, so the kept characters stay in
      their order. */
  lemma {:induction false} RemoveCharConcat(a: string, b: string, c: char)
    ensures RemoveChar(a + b, c) == RemoveChar(a, c) + RemoveChar(b, c)
  {
    if a == [] {
      assert a + b == b;
    } else {
      var d, t := a[0], a[1..];
      assert a == [d] + t && a + b == [d] + (t + b);
      var keep := if d == c then [] else [d];
      calc {
        RemoveChar(a + b, c);
        { RemoveCharCons(d, t + b, c); }
        keep + RemoveChar(t + b, c);
        { RemoveCharConcat(t, b, c); }
        keep + (RemoveChar(t, c) + RemoveChar(b, c));
        (keep + RemoveChar(t, c)) + RemoveChar(b, c);
        { RemoveCharCons(d, t, c); }
        RemoveChar(a, c) + RemoveChar(b, c);
      }
    }
  }

  /** A single character is kept exactly when it is not `c`. */
  lemma RemoveCharSingle(d: char, c: char)
    ensures RemoveChar([d], c) == if d == c then [] else [d]
  {
    RemoveCharCons(d, [], c);
    assert [d] + [] == [d];
  }

  /** `special_matcher.sub("", s)`: every non-word character taken out. */
  function RemoveNonWord(s: string): (r: string)
    ensures !HasNonWord(r)
    ensures |r| <= |s|
    ensures HasNonWord(s) ==> |r| < |s|
    ensures !HasNonWord(s) ==> r == s
  {
    if s == [] then []
    else if IsWordChar(s[0]) then [s[0]] + RemoveNonWord(s[1..])
    else RemoveNonWord(s[1..])
  }

  /** The substitution on a string with a given first character. */
  lemma RemoveNonWordCons(d: char, t: string)
    ensures RemoveNonWord([d] + t) == (if IsWordChar(d) then [d] else []) + RemoveNonWord(t)
  {
    var s := [d] + t;
    assert s[0] == d && s[1..] == t;
  }

  /** The substitution works piece by piece, so the kept characters stay in
      their order. */
  lemma {:induction false} RemoveNonWordConcat(a: string, b: string)
    ensures RemoveNonWord(a + b) == RemoveNonWord(a) + RemoveNonWord(b)
  {
    if a == [] {
      assert a + b == b;
    } else {
      var d, t := a[0], a[1..];
      assert a == [d] + t && a + b == [d] + (t + b);
      var keep := if IsWordChar(d) then [d] else [];
      calc {
        RemoveNonWord(a + b);
        { RemoveNonWordCons(d, t + b); }
        keep + RemoveNonWord(t + b);
        { RemoveNonWordConcat(t, b); }
        keep + (RemoveNonWord(t) + RemoveNonWord(b));
        (keep + RemoveNonWord(t)) + RemoveNonWord(b);
        { RemoveNonWordCons(d, t); }
        RemoveNonWord(a) + RemoveNonWord(b);
      }
    }
  }

  /** A single character is kept exactly when it is a word character. */
  lemma RemoveNonWordSingle(d: char)
    ensures RemoveNonWord([d]) == if IsWordChar(d) then [d] else []
  {
    RemoveNonWordCons(d, []);
    assert [d] + [] == [d];
  }

  /** Every word character is kept as often as it occurs. */
  lemma {:induction false} RemoveNonWordKeeps(s: string, d: char)
    requires IsWordChar(d)
    ensures Count(RemoveNonWord(s), d) == Count(s, d)
  {
    if s != [] {
      RemoveNonWordKeeps(s[1..], d);
      if IsWordChar(s[0]) {
        assert ([s[0]] + RemoveNonWord(s[1..]))[1..] == RemoveNonWord(s[1..]);
      }
    }
  }

  // ---------------------------------------------------------------------
  // str.split(sep) with a one-character separator, and its inverse join

  /** `s.split(sep)`: the pieces between separators, empty pieces included,
      so that `""` splits into `[""]` and two adjacent separators give an
      empty field between them. */
  function Split(s: string, sep: char): (r: seq<string>)
    ensures |r| >= 1
  {
    if s == [] then [""]
    else
      var rest := Split(s[1..], sep);
      if s[0] == sep then [""] + rest
      else [[s[0]] + rest[0]] + rest[1..]
  }

  /** `sep.join(fields)`. */
  function Join(fields: seq<string>, sep: char): string
    requires |fields| >= 1
  {
    if |fields| == 1 then fields[0] else fields[0] + [sep] + Join(fields[1..], sep)
  }

  /** One field more than there are separators. */
  lemma {:induction false} SplitLength(s: string, sep: char)
    ensures |Split(s, sep)| == Count(s, sep) + 1
  {
    if s != [] {
      SplitLength(s[1..], sep);
    }
  }

  /** Every character of a field occurs in the split string. */
  lemma {:induction false} SplitFieldsFrom(s: string, sep: char)
    ensures forall f, c :: f in Split(s, sep) && c in f ==> c in s
  {
    if s != [] {
      SplitFieldsFrom(s[1..], sep);
      var rest := Split(s[1..], sep);
      assert rest == [rest[0]] + rest[1..];
      assert forall c :: c in s[1..] ==> c in s;
    }
  }

  /** No field holds the separator. */
  lemma {:induction false} SplitFieldsHaveNoSep(s: string, sep: char)
    ensures forall f :: f in Split(s, sep) ==> sep !in f
  {
    if s != [] {
      SplitFieldsHaveNoSep(s[1..], sep);
      var rest := Split(s[1..], sep);
      assert rest == [rest[0]] + rest[1..];
    }
  }

  /** Joining the fields back gives the original string. */
  lemma {:induction false} JoinSplit(s: string, sep: char)
    ensures Join(Split(s, sep), sep) == s
  {
    if s != [] {
      JoinSplit(s[1..], sep);
      var rest := Split(s[1..], sep);
      if s[0] == sep {
        assert Split(s, sep)[1..] == rest;
      } else {
        var fs := Split(s, sep);
        assert fs[1..] == rest[1..];
        if |rest| > 1 {
          assert Join(rest, sep) == rest[0] + [sep] + Join(rest[1..], sep);
          assert Join(fs, sep) == ([s[0]] + rest[0]) + [sep] + Join(rest[1..], sep);
        }
      }
    }
  }

  /** Splitting the string that joins separator-free fields gives back
      those fields. */
  lemma {:induction false} SplitJoin(fields: seq<string>, sep: char)
    requires |fields| >= 1
    requires forall i :: 0 <= i < |fields| ==> sep !in fields[i]
    ensures Split(Join(fields, sep), sep) == fields
  {
    if |fields| == 1 {
      SplitNoSep(fields[0], sep);
    } else {
      SplitJoin(fields[1..], sep);
      SplitPrefix(fields[0], Join(fields[1..], sep), sep);
      assert [fields[0]] + fields[1..] == fields;
    }
  }

  /** A string without the separator is one field. */
  lemma {:induction false} SplitNoSep(s: string, sep: char)
    requires sep !in s
    ensures Split(s, sep) == [s]
  {
    if s != [] {
      SplitNoSep(s[1..], sep);
      assert [s[0]] + s[1..] == s;
    }
  }

  /** A separator-free string followed by a separator starts a new field. */
  lemma {:induction false} SplitPrefix(f: string, t: string, sep: char)
    requires sep !in f
    ensures Split(f + [sep] + t, sep) == [f] + Split(t, sep)
  {
    if f == [] {
      assert f + [sep] + t == [sep] + t;
      assert ([sep] + t)[1..] == t;
    } else {
      SplitPrefix(f[1..], t, sep);
      assert (f + [sep] + t)[1..] == f[1..] + [sep] + t;
      assert [f[0]] + f[1..] == f;
    }
  }
}
