/** `DataHelper` (utils/helpers.py): whitespace normalisation, extraction of
    decimal numbers and order-insensitive list comparison. */
module DataHelper {
  import opened Text

  // =====================================================================
  // clean_string: " ".join(text.split())
  // =====================================================================

  /** Every whitespace character is a single space between two words: the
      string neither starts nor ends with whitespace and has no two
      whitespace characters in a row. */
  predicate Normalized(s: string) {
    && (forall i :: 0 <= i < |s| && IsSpace(s[i]) ==> s[i] == ' ')
    && (s == [] || (NotSpace(s[0]) && NotSpace(s[|s| - 1])))
    && (forall i :: 0 <= i < |s| - 1 && IsSpace(s[i]) ==> NotSpace(s[i + 1]))
  }

  /** `DataHelper.clean_string`. */
  function CleanString(text: string): (r: string)
    ensures Normalized(r)
    ensures Runs(r, NotSpace) == Runs(text, NotSpace)
  {
    var words := Runs(text, NotSpace);
    JoinNormalized(words);
    RunsOfJoin(words, " ", NotSpace);
    Join(words, " ")
  }

  /** A word followed by a space and a normalised non-empty string is
      normalised. */
  lemma ConsWordNormalized(w: string, rest: string)
    requires w != [] && Every(w, NotSpace)
    requires rest != [] && Normalized(rest)
    ensures Normalized(w + " " + rest)
  {
    var s := w + " " + rest;
    forall i | 0 <= i < |s| && IsSpace(s[i]) ensures s[i] == ' ' {
      if i > |w| { assert s[i] == rest[i - |w| - 1]; }
    }
    forall i | 0 <= i < |s| - 1 && IsSpace(s[i]) ensures NotSpace(s[i + 1]) {
      if i > |w| {
        assert s[i] == rest[i - |w| - 1] && s[i + 1] == rest[i - |w|];
      } else if i == |w| {
        assert s[i + 1] == rest[0];
      }
    }
    assert s[|s| - 1] == rest[|rest| - 1];
  }

  /** Words with no whitespace, joined by single spaces, are normalised. */
  lemma {:induction false} JoinNormalized(ws: seq<string>)
    requires forall k :: 0 <= k < |ws| ==> ws[k] != [] && Every(ws[k], NotSpace)
    ensures Normalized(Join(ws, " "))
    ensures ws != [] ==> Join(ws, " ") != []
    decreases |ws|
  {
    if |ws| == 1 {
      assert Join(ws, " ") == ws[0];
    } else if |ws| > 1 {
      JoinNormalized(ws[1..]);
      ConsWordNormalized(ws[0], Join(ws[1..], " "));
    }
  }

  /** Cleaning keeps the words: the result splits into the same words as the
      input, in the same order. */
  lemma CleanStringKeepsWords(text: string)
    ensures Runs(CleanString(text), NotSpace) == Runs(text, NotSpace)
    ensures Flatten(Runs(CleanString(text), NotSpace)) == Filter(text, NotSpace)
  {
    RunsKeepClassChars(text, NotSpace);
  }

  /** Cleaning twice is cleaning once. */
  lemma CleanStringIdempotent(text: string)
    ensures CleanString(CleanString(text)) == CleanString(text)
  {
  }

  /** A normalised string is its own cleaning, and only those are. */
  lemma {:induction false} CleanStringFixedIff(s: string)
    ensures CleanString(s) == s <==> Normalized(s)
    decreases |s|
  {
    if Normalized(s) && s != [] {
      var n := SpanLength(s, NotSpace);
      if n == |s| {
        RunsHead(s, [], NotSpace);
        assert s + [] == s;
        assert Runs([], NotSpace) == [];
      } else {
        var w, rest := s[..n], s[n + 1..];
        assert !NotSpace(s[n]);
        NormalizedSplit(s, n);
        CleanStringFixedIff(rest);
        RunsOfWordSpace(w, rest);
        RunsEmptyIff(rest, NotSpace);
        assert rest[0] in rest;
        JoinCons(w, Runs(rest, NotSpace), " ");
      }
    }
  }

  /** A normalised string that is not one word is its first word, a space
      and a normalised non-empty rest. */
  lemma NormalizedSplit(s: string, n: nat)
    requires Normalized(s) && n < |s| && IsSpace(s[n])
    ensures n >= 1 && n + 1 < |s| && s[n] == ' '
    ensures s == s[..n] + " " + s[n + 1..]
    ensures Normalized(s[n + 1..]) && NotSpace(s[n + 1])
  {
    assert s[n] == ' ';
    assert n + 1 < |s|;
    var rest := s[n + 1..];
    assert s == s[..n] + [s[n]] + rest;
    forall i | 0 <= i < |rest| && IsSpace(rest[i]) ensures rest[i] == ' ' {
      assert rest[i] == s[n + 1 + i];
    }
    forall i | 0 <= i < |rest| - 1 && IsSpace(rest[i]) ensures NotSpace(rest[i + 1]) {
      assert rest[i] == s[n + 1 + i] && rest[i + 1] == s[n + 2 + i];
    }
    assert rest[0] == s[n + 1] && rest[|rest| - 1] == s[|s| - 1];
  }

  /** A word, a space and a rest split into the word and the rest's words. */
  lemma RunsOfWordSpace(w: string, rest: string)
    requires w != [] && Every(w, NotSpace)
    ensures Runs(w + " " + rest, NotSpace) == [w] + Runs(rest, NotSpace)
  {
    assert w + " " + rest == w + ([' '] + rest);
    RunsHead(w, [' '] + rest, NotSpace);
    RunsSkip([' '], rest, NotSpace);
  }

  /** Joining a word in front of at least one more part. */
  lemma JoinCons(w: string, parts: seq<string>, sep: string)
    requires parts != []
    ensures Join([w] + parts, sep) == w + sep + Join(parts, sep)
  {
    assert ([w] + parts)[1..] == parts;
  }

  lemma CleanStringExamples()
    ensures CleanString("") == ""
    ensures CleanString(" \t\n ") == ""
  {
    RunsEmptyIff(" \t\n ", NotSpace);
  }

  // =====================================================================
  // extract_numbers: [int(x) for x in re.findall(r'\d+', text)]
  // =====================================================================

  /** `DataHelper.extract_numbers`: the value of each maximal digit run. */
  function ExtractNumbers(text: string): (r: seq<nat>)
    ensures |r| == |Runs(text, IsDigit)|
    ensures r == [] <==> NoChar(text, IsDigit)
  {
    RunsEmptyIff(text, IsDigit);
    var runs := Runs(text, IsDigit);
    seq(|runs|, k requires 0 <= k < |runs| => DecimalValue(runs[k]))
  }

  /** `str(n)` for each number. */
  function Numerals(ns: seq<nat>): (r: seq<string>)
    ensures |r| == |ns|
    ensures forall k :: 0 <= k < |r| ==> r[k] != [] && Every(r[k], IsDigit)
  {
    seq(|ns|, k requires 0 <= k < |ns| => NatToString(ns[k]))
  }

  /** Writing numbers out with any digit-free separator and extracting them
      again gives back the numbers. */
  lemma ExtractNumbersOfJoin(ns: seq<nat>, sep: string)
    requires sep != [] && NoChar(sep, IsDigit)
    ensures ExtractNumbers(Join(Numerals(ns), sep)) == ns
  {
    RunsOfJoin(Numerals(ns), sep, IsDigit);
  }

  /** A single number surrounded by digit-free text is extracted alone. */
  lemma ExtractSingleNumber(prefix: string, n: nat, suffix: string)
    requires NoChar(prefix, IsDigit) && NoChar(suffix, IsDigit)
    ensures ExtractNumbers(prefix + NatToString(n) + suffix) == [n]
  {
    var d := NatToString(n);
    assert prefix + d + suffix == prefix + (d + suffix);
    RunsSkip(prefix, d + suffix, IsDigit);
    RunsHead(d, suffix, IsDigit);
    RunsEmptyIff(suffix, IsDigit);
  }

  /** Leading zeros are dropped by `int`. */
  lemma ExtractLeadingZeros()
    ensures ExtractNumbers("007") == [7]
  {
    RunsHead("007", [], IsDigit);
    assert "007" + [] == "007";
    assert "007"[..2] == "00" && "00"[..1] == "0" && "0"[..0] == "";
    assert DecimalValue("007") == 7;
  }

  // =====================================================================
  // compare_lists: sorted(list1) == sorted(list2)
  // =====================================================================

  predicate Sorted(s: seq<int>) {
    forall i, j :: 0 <= i < j < |s| ==> s[i] <= s[j]
  }

  /** A head no greater than the first element keeps a list sorted. */
  lemma SortedCons(h: int, t: seq<int>)
    requires Sorted(t) && (t == [] || h <= t[0])
    ensures Sorted([h] + t)
  {
    var r := [h] + t;
    forall i, j | 0 <= i < j < |r| ensures r[i] <= r[j] {
      if i > 0 {
        assert r[i] == t[i - 1] && r[j] == t[j - 1];
      } else if j > 1 {
        assert t[0] <= t[j - 1];
      }
    }
  }

  /** `x` put in front of the first element of `s` it does not exceed. */
  function Insert(x: int, s: seq<int>): (r: seq<int>)
    ensures |r| == |s| + 1 && (r[0] == x || (s != [] && r[0] == s[0]))
  {
    if s == [] || x <= s[0] then [x] + s
    else [s[0]] + Insert(x, s[1..])
  }

  /** Inserting into a sorted list keeps it sorted and adds exactly `x`. */
  lemma {:induction false} InsertSorted(x: int, s: seq<int>)
    requires Sorted(s)
    ensures Sorted(Insert(x, s)) && multiset(Insert(x, s)) == multiset(s) + multiset{x}
  {
    if s == [] || x <= s[0] {
      SortedCons(x, s);
    } else {
      SortedTail(s);
      var t := Insert(x, s[1..]);
      InsertSorted(x, s[1..]);
      assert s[1..] != [] ==> s[0] <= s[1..][0];
      SortedCons(s[0], t);
      assert Insert(x, s) == [s[0]] + t;
      assert multiset([s[0]] + t) == multiset{s[0]} + multiset(t);
    }
  }

  /** Python's `sorted` on integers. */
  function Sort(s: seq<int>): (r: seq<int>)
    ensures Sorted(r) && multiset(r) == multiset(s)
  {
    if s == [] then []
    else
      assert s == [s[0]] + s[1..];
      InsertSorted(s[0], Sort(s[1..]));
      Insert(s[0], Sort(s[1..]))
  }

  /** The least element leads every sorted arrangement. */
  lemma SortedHeads(a: seq<int>, b: seq<int>)
    requires Sorted(a) && Sorted(b) && multiset(a) == multiset(b)
    requires a != [] && b != []
    ensures a[0] == b[0]
  {
    assert a[0] in multiset(b);
    assert b[0] in multiset(a);
    var i :| 0 <= i < |b| && b[i] == a[0];
    var j :| 0 <= j < |a| && a[j] == b[0];
  }

  /** Two sorted lists with the same elements are the same list. */
  lemma {:induction false} SortedUnique(a: seq<int>, b: seq<int>)
    requires Sorted(a) && Sorted(b) && multiset(a) == multiset(b)
    ensures a == b
    decreases |a|
  {
    if a != [] {
      assert |b| == |a| by { assert |multiset(a)| == |multiset(b)|; }
      SortedHeads(a, b);
      SortedTail(a);
      SortedTail(b);
      SortedUnique(a[1..], b[1..]);
      assert a == [a[0]] + a[1..] && b == [b[0]] + b[1..];
    }
  }

  /** The tail of a sorted list is sorted and holds all but its head. */
  lemma SortedTail(a: seq<int>)
    requires Sorted(a) && a != []
    ensures Sorted(a[1..]) && multiset(a[1..]) == multiset(a) - multiset{a[0]}
  {
    assert a == [a[0]] + a[1..];
    assert multiset(a) == multiset{a[0]} + multiset(a[1..]);
  }

  /** `DataHelper.compare_lists` on lists of integers. */
  function CompareLists(list1: seq<int>, list2: seq<int>): bool {
    Sort(list1) == Sort(list2)
  }

  /** The lists compare equal exactly when one is a permutation of the
      other. */
  lemma CompareListsIff(list1: seq<int>, list2: seq<int>)
    ensures CompareLists(list1, list2) <==> multiset(list1) == multiset(list2)
  {
    if multiset(list1) == multiset(list2) {
      SortedUnique(Sort(list1), Sort(list2));
    }
  }

  lemma CompareListsReflexiveSymmetric(list1: seq<int>, list2: seq<int>)
    ensures CompareLists(list1, list1)
    ensures CompareLists(list1, list2) == CompareLists(list2, list1)
  {
  }
}
