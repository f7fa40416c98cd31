/** Character classes and string operations shared by the helpers, the
    generator and the settings: the Python built-ins (`in`, `split`, `join`,
    `lower`, `str(int)`, `int(str)`) and the regex building blocks (`\d`,
    `\w`, maximal runs) the source relies on. */
module Text {

  // ---------------------------------------------------------------------
  // Character classes
  // ---------------------------------------------------------------------

  /** The regex class `\d`, read as ASCII. */
  predicate IsDigit(c: char) { '0' <= c <= '9' }

  /** The regex class `[a-zA-Z]`. */
  predicate IsAsciiLetter(c: char) { 'a' <= c <= 'z' || 'A' <= c <= 'Z' }

  /** The regex class `\w`, read as ASCII. */
  predicate IsWordChar(c: char) { IsAsciiLetter(c) || IsDigit(c) || c == '_' }

  /** Python's `str.isspace`: the separators that `str.split()` drops. */
  predicate IsSpace(c: char) {
    || c == ' ' || '\t' <= c <= '\r' || '\U{1c}' <= c <= '\U{1f}'
    || c == '\U{85}' || c == '\U{a0}' || c == '\U{1680}'
    || '\U{2000}' <= c <= '\U{200a}' || c == '\U{2028}' || c == '\U{2029}'
    || c == '\U{202f}' || c == '\U{205f}' || c == '\U{3000}'
  }

  predicate NotSpace(c: char) { !IsSpace(c) }

  /** Every character of `s` is in class `p`. */
  predicate Every(s: string, p: char -> bool) {
    forall i :: 0 <= i < |s| ==> p(s[i])
  }

  /** No character of `s` is in class `p`. */
  predicate NoChar(s: string, p: char -> bool) {
    forall i :: 0 <= i < |s| ==> !p(s[i])
  }

  // ---------------------------------------------------------------------
  // Searching
  // ---------------------------------------------------------------------

  /** Position of the first `c` in `s`, or `|s|` when `s` has none. */
  function IndexOf(s: string, c: char): (k: nat)
    ensures k <= |s|
    ensures k < |s| ==> s[k] == c
    ensures forall j :: 0 <= j < k ==> s[j] != c
  {
    if s == [] || s[0] == c then 0 else 1 + IndexOf(s[1..], c)
  }

  /** Nothing before the first occurrence is `c`. */
  lemma IndexOfPrefixFree(s: string, c: char)
    ensures c !in s[..IndexOf(s, c)]
  {
    var k := IndexOf(s, c);
    forall j | 0 <= j < k ensures s[..k][j] != c {
      assert s[..k][j] == s[j];
    }
  }

  /** A character of `s` is found, at a position holding it. */
  lemma IndexOfMember(s: string, c: char)
    requires c in s
    ensures IndexOf(s, c) < |s| && s[IndexOf(s, c)] == c
  {
    var j :| 0 <= j < |s| && s[j] == c;
  }

  /** Appending text after an occurrence does not move the first occurrence. */
  lemma {:induction false} IndexOfAppend(a: string, b: string, c: char)
    requires c in a
    ensures IndexOf(a + b, c) == IndexOf(a, c)
  {
    if a[0] != c {
      assert (a + b)[1..] == a[1..] + b;
      IndexOfAppend(a[1..], b, c);
    }
  }

  /** Position of the last `c` in `s`, or -1 when `s` has none. */
  function LastIndexOf(s: string, c: char): (k: int)
    ensures -1 <= k < |s|
    ensures k >= 0 ==> s[k] == c
    ensures forall j :: k < j < |s| ==> s[j] != c
  {
    if s == [] then -1
    else if s[|s| - 1] == c then |s| - 1
    else LastIndexOf(s[..|s| - 1], c)
  }

  /** `sub` occurs in `s` at some position: the meaning of Python's `sub in s`. */
  ghost predicate OccursIn(sub: string, s: string) {
    exists i :: OccursAt(sub, s, i)
  }

  /** `sub` occurs in `s` starting at position `i`. */
  ghost predicate OccursAt(sub: string, s: string, i: int) {
    0 <= i && i + |sub| <= |s| && s[i..i + |sub|] == sub
  }

  /** Python's `sub in s`, as a left-to-right search. */
  predicate Contains(s: string, sub: string)
    decreases |s|
  {
    if |sub| > |s| then false
    else if s[..|sub|] == sub then true
    else if s == [] then false
    else Contains(s[1..], sub)
  }

  lemma {:induction false} ContainsMeansOccurs(s: string, sub: string)
    ensures Contains(s, sub) <==> OccursIn(sub, s)
    decreases |s|
  {
    if |sub| > |s| {
    } else if s[..|sub|] == sub {
      assert OccursAt(sub, s, 0);
    } else if s == [] {
    } else {
      ContainsMeansOccurs(s[1..], sub);
      if OccursIn(sub, s) {
        var i :| OccursAt(sub, s, i);
        assert i != 0;
        assert s[1..][i - 1..i - 1 + |sub|] == sub;
        assert OccursAt(sub, s[1..], i - 1);
      }
      if OccursIn(sub, s[1..]) {
        var i :| OccursAt(sub, s[1..], i);
        assert s[i + 1..i + 1 + |sub|] == sub;
        assert OccursAt(sub, s, i + 1);
      }
    }
  }

  // ---------------------------------------------------------------------
  // Splitting and joining
  // ---------------------------------------------------------------------

  /** Python's `sep.join(parts)`. */
  function Join(parts: seq<string>, sep: string): string
  {
    if |parts| == 0 then ""
    else if |parts| == 1 then parts[0]
    else parts[0] + sep + Join(parts[1..], sep)
  }

  /** Python's `s.split(c)` for a one-character separator: one more part than
      there are separators, none containing the separator, and joining them
      back gives `s`. */
  function Split(s: string, c: char): (parts: seq<string>)
    ensures |parts| == multiset(s)[c] + 1
    ensures forall k :: 0 <= k < |parts| ==> c !in parts[k]
    ensures Join(parts, [c]) == s
    decreases |s|
  {
    var i := IndexOf(s, c);
    if i == |s| then
      assert c !in s;
      [s]
    else
      assert s == s[..i] + [c] + s[i + 1..];
      assert c !in s[..i];
      [s[..i]] + Split(s[i + 1..], c)
  }

  // ---------------------------------------------------------------------
  // Filters and maximal runs
  // ---------------------------------------------------------------------

  /** The characters of `s` in class `p`, in order (`re.sub` of the
      complement class by ""). */
  function Filter(s: string, p: char -> bool): (r: string)
    ensures |r| <= |s| && Every(r, p)
  {
    if s == [] then [] else (if p(s[0]) then [s[0]] else []) + Filter(s[1..], p)
  }

  /** A class holds of a concatenation when it holds of both parts. */
  lemma EveryConcat(a: string, b: string, p: char -> bool)
    requires Every(a, p) && Every(b, p)
    ensures Every(a + b, p)
  {
    forall i | 0 <= i < |a + b| ensures p((a + b)[i]) {
      if i >= |a| { assert (a + b)[i] == b[i - |a|]; }
    }
  }

  lemma {:induction false} FilterAppend(a: string, b: string, p: char -> bool)
    ensures Filter(a + b, p) == Filter(a, p) + Filter(b, p)
    decreases |a|
  {
    if a != [] {
      assert (a + b)[1..] == a[1..] + b;
      FilterAppend(a[1..], b, p);
    } else {
      assert a + b == b;
    }
  }

  lemma {:induction false} FilterEvery(s: string, p: char -> bool)
    requires Every(s, p)
    ensures Filter(s, p) == s
    decreases |s|
  {
    if s != [] { FilterEvery(s[1..], p); }
  }

  lemma {:induction false} FilterNone(s: string, p: char -> bool)
    requires NoChar(s, p)
    ensures Filter(s, p) == []
    decreases |s|
  {
    if s != [] { FilterNone(s[1..], p); }
  }

  /** Length of the longest prefix of `s` in class `p`. */
  function SpanLength(s: string, p: char -> bool): (n: nat)
    ensures n <= |s|
    ensures forall i :: 0 <= i < n ==> p(s[i])
    ensures n < |s| ==> !p(s[n])
  {
    if s == [] || !p(s[0]) then 0 else 1 + SpanLength(s[1..], p)
  }

  /** The maximal runs of class-`p` characters of `s`, left to right: what
      `re.findall` returns for the pattern `[p]+`, and what `str.split()`
      returns when `p` is "not whitespace". */
  function Runs(s: string, p: char -> bool): (runs: seq<string>)
    ensures forall k :: 0 <= k < |runs| ==> runs[k] != [] && Every(runs[k], p)
    decreases |s|
  {
    if s == [] then []
    else if !p(s[0]) then Runs(s[1..], p)
    else
      var n := SpanLength(s, p);
      [s[..n]] + Runs(s[n..], p)
  }

  /** Concatenation of a sequence of strings. */
  function Flatten(parts: seq<string>): string
  {
    if parts == [] then [] else parts[0] + Flatten(parts[1..])
  }

  /** The runs hold exactly the class-`p` characters of `s`, in order. */
  lemma {:induction false} RunsKeepClassChars(s: string, p: char -> bool)
    ensures Flatten(Runs(s, p)) == Filter(s, p)
    decreases |s|
  {
    if s == [] {
    } else if !p(s[0]) {
      RunsKeepClassChars(s[1..], p);
    } else {
      var n := SpanLength(s, p);
      assert s == s[..n] + s[n..];
      FilterAppend(s[..n], s[n..], p);
      FilterEvery(s[..n], p);
      RunsKeepClassChars(s[n..], p);
      var runs := [s[..n]] + Runs(s[n..], p);
      assert runs[1..] == Runs(s[n..], p);
    }
  }

  /** No runs exactly when no character is in the class. */
  lemma {:induction false} RunsEmptyIff(s: string, p: char -> bool)
    ensures Runs(s, p) == [] <==> NoChar(s, p)
    decreases |s|
  {
    if s != [] {
      RunsEmptyIff(s[1..], p);
    }
  }

  /** Leading characters outside the class contribute no run. */
  lemma {:induction false} RunsSkip(u: string, t: string, p: char -> bool)
    requires NoChar(u, p)
    ensures Runs(u + t, p) == Runs(t, p)
    decreases |u|
  {
    if u == [] {
      assert u + t == t;
    } else {
      assert (u + t)[1..] == u[1..] + t;
      RunsSkip(u[1..], t, p);
    }
  }

  lemma {:induction false} SpanOfRun(w: string, t: string, p: char -> bool)
    requires Every(w, p)
    requires t == [] || !p(t[0])
    ensures SpanLength(w + t, p) == |w|
    decreases |w|
  {
    if w == [] {
      assert w + t == t;
    } else {
      assert (w + t)[1..] == w[1..] + t;
      SpanOfRun(w[1..], t, p);
    }
  }

  /** A class-`p` run followed by the end or by a non-class character is one
      whole run. */
  lemma RunsHead(w: string, t: string, p: char -> bool)
    requires w != [] && Every(w, p)
    requires t == [] || !p(t[0])
    ensures Runs(w + t, p) == [w] + Runs(t, p)
  {
    SpanOfRun(w, t, p);
    assert (w + t)[..|w|] == w;
    assert (w + t)[|w|..] == t;
  }

  /** Joining non-empty class-`p` words with a separator outside the class,
      then taking the runs, gives back the words. */
  lemma {:induction false} RunsOfJoin(ws: seq<string>, sep: string, p: char -> bool)
    requires forall k :: 0 <= k < |ws| ==> ws[k] != [] && Every(ws[k], p)
    requires sep != [] && NoChar(sep, p)
    ensures Runs(Join(ws, sep), p) == ws
    decreases |ws|
  {
    if |ws| == 0 {
    } else if |ws| == 1 {
      RunsHead(ws[0], [], p);
      assert ws[0] + [] == ws[0];
      assert Runs([], p) == [];
    } else {
      var rest := Join(ws[1..], sep);
      assert Join(ws, sep) == ws[0] + (sep + rest);
      RunsHead(ws[0], sep + rest, p);
      RunsSkip(sep, rest, p);
      RunsOfJoin(ws[1..], sep, p);
      assert [ws[0]] + ws[1..] == ws;
    }
  }

  // ---------------------------------------------------------------------
  // Decimal numerals
  // ---------------------------------------------------------------------

  function DigitValue(c: char): nat
    requires IsDigit(c)
  {
    (c as int) - ('0' as int)
  }

  function DigitChar(d: nat): (c: char)
    requires d < 10
    ensures IsDigit(c) && DigitValue(c) == d
  {
    (('0' as int) + d) as char
  }

  /** Python's `int(ds)` for a string of decimal digits (leading zeros allowed). */
  function DecimalValue(ds: string): nat
    requires Every(ds, IsDigit)
  {
    if ds == [] then 0
    else
      assert Every(ds[..|ds| - 1], IsDigit);
      DecimalValue(ds[..|ds| - 1]) * 10 + DigitValue(ds[|ds| - 1])
  }

  /** Python's `str(n)` for a non-negative integer. */
  function NatToString(n: nat): (r: string)
    ensures r != [] && Every(r, IsDigit)
    ensures DecimalValue(r) == n
  {
    if n < 10 then [DigitChar(n)]
    else
      var r := NatToString(n / 10) + [DigitChar(n % 10)];
      assert r[..|r| - 1] == NatToString(n / 10);
      r
  }

  // ---------------------------------------------------------------------
  // Case mapping
  // ---------------------------------------------------------------------

  function LowerChar(c: char): char
  {
    if 'A' <= c <= 'Z' then ((c as int) + 32) as char else c
  }

  /** Python's `str.lower()` restricted to ASCII upper-case letters. */
  function Lower(s: string): (r: string)
  {
    seq(|s|, i requires 0 <= i < |s| => LowerChar(s[i]))
  }
}
