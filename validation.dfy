/** `ValidationHelper` (utils/helpers.py): the email, phone and URL
    recognisers. Each regular expression is written as a scanner over
    character classes and proved equal to a declarative reading of the
    pattern: "the input splits into pieces, each piece in its class". */
module ValidationHelper {
  import opened Text

  /** `re.match(p, s)` where `p` ends in `$`: `$` matches at the very end of
      `s` or just before one final newline, so `body` must accept `s` or `s`
      without that newline. */
  predicate EndAnchored(s: string, body: string -> bool) {
    || body(s)
    || (|s| > 0 && s[|s| - 1] == '\n' && body(s[..|s| - 1]))
  }

  // =====================================================================
  // Email: ^[a-zA-Z0-9._%+-]+@[a-zA-Z0-9.-]+\.[a-zA-Z]{2,}$
  // =====================================================================

  predicate IsLocalChar(c: char) {
    IsAsciiLetter(c) || IsDigit(c) || c == '.' || c == '_' || c == '%' || c == '+' || c == '-'
  }

  predicate IsDomainChar(c: char) {
    IsAsciiLetter(c) || IsDigit(c) || c == '.' || c == '-'
  }

  /** Scanner for what follows the `@`: the last `.` separates a non-empty
      domain from a top-level label of at least two letters. */
  predicate DomainMatches(d: string) {
    var j := LastIndexOf(d, '.');
    && j >= 1
    && Every(d[..j], IsDomainChar)
    && |d| - j - 1 >= 2
    && Every(d[j + 1..], IsAsciiLetter)
  }

  /** Scanner for the whole pattern without the `$` rule: a non-empty local
      part up to the first `@`, then the domain. */
  predicate EmailMatches(s: string) {
    var i := IndexOf(s, '@');
    1 <= i < |s| && Every(s[..i], IsLocalChar) && DomainMatches(s[i + 1..])
  }

  /** `ValidationHelper.is_valid_email`. */
  predicate IsValidEmail(s: string) {
    EndAnchored(s, EmailMatches)
  }

  /** The pattern read declaratively: `s` is local + "@" + domain + "." + tld. */
  ghost predicate EmailSplit(s: string, local: string, domain: string, tld: string) {
    && s == local + "@" + domain + "." + tld
    && local != [] && Every(local, IsLocalChar)
    && domain != [] && Every(domain, IsDomainChar)
    && |tld| >= 2 && Every(tld, IsAsciiLetter)
  }

  ghost predicate EmailShape(s: string) {
    exists local, domain, tld :: EmailSplit(s, local, domain, tld)
  }

  lemma IndexOfFirst(u: string, c: char, v: string)
    requires c !in u
    ensures IndexOf(u + [c] + v, c) == |u|
  {
    var s := u + [c] + v;
    assert s[|u|] == c;
  }

  lemma LastIndexOfLast(u: string, c: char, v: string)
    requires c !in v
    ensures LastIndexOf(u + [c] + v, c) == |u|
  {
    var s := u + [c] + v;
    assert s[|u|] == c;
  }

  lemma DomainMatchesIff(d: string)
    ensures DomainMatches(d) <==> exists domain, tld :: EmailDomainSplit(d, domain, tld)
  {
    var j := LastIndexOf(d, '.');
    if DomainMatches(d) {
      assert d == d[..j] + "." + d[j + 1..];
      assert EmailDomainSplit(d, d[..j], d[j + 1..]);
    }
    if exists domain, tld :: EmailDomainSplit(d, domain, tld) {
      var domain, tld :| EmailDomainSplit(d, domain, tld);
      assert '.' !in tld;
      LastIndexOfLast(domain, '.', tld);
      assert d[..j] == domain;
      assert d[j + 1..] == tld;
    }
  }

  ghost predicate EmailDomainSplit(d: string, domain: string, tld: string) {
    && d == domain + "." + tld
    && domain != [] && Every(domain, IsDomainChar)
    && |tld| >= 2 && Every(tld, IsAsciiLetter)
  }

  /** With a local part free of `@`, the scanner's verdict rests on the
      local part being non-empty and on what follows the `@`. */
  lemma EmailMatchesSplit(local: string, rest: string)
    requires Every(local, IsLocalChar)
    ensures EmailMatches(local + "@" + rest) <==> local != [] && DomainMatches(rest)
  {
    var s := local + "@" + rest;
    assert '@' !in local;
    IndexOfFirst(local, '@', rest);
    assert s[..|local|] == local;
    assert s[|local| + 1..] == rest;
  }

  /** The scanner accepts exactly the strings that split as the pattern says. */
  lemma EmailMatchesIff(s: string)
    ensures EmailMatches(s) <==> EmailShape(s)
  {
    if EmailMatches(s) {
      EmailMatchesSound(s);
    }
    if EmailShape(s) {
      var local, domain, tld :| EmailSplit(s, local, domain, tld);
      EmailSplitMatches(s, local, domain, tld);
    }
  }

  lemma EmailMatchesSound(s: string)
    requires EmailMatches(s)
    ensures EmailShape(s)
  {
    var local, domain, tld := EmailPieces(s);
  }

  /** The pieces the scanner cuts an accepted address into. */
  lemma EmailPieces(s: string) returns (local: string, domain: string, tld: string)
    requires EmailMatches(s)
    ensures EmailSplit(s, local, domain, tld)
  {
    var i := IndexOf(s, '@');
    var d := s[i + 1..];
    var j := LastIndexOf(d, '.');
    local, domain, tld := s[..i], d[..j], d[j + 1..];
    CutAt(s, i);
    CutAt(d, j);
    ConcatAssoc(local + "@", domain, ".", tld);
  }

  /** A string is what comes before position `i`, the character there and
      what comes after. */
  lemma CutAt(s: string, i: nat)
    requires i < |s|
    ensures s == s[..i] + [s[i]] + s[i + 1..]
  {
  }

  lemma EmailSplitMatches(s: string, local: string, domain: string, tld: string)
    requires EmailSplit(s, local, domain, tld)
    ensures EmailMatches(s)
  {
    var rest := domain + "." + tld;
    assert s == local + "@" + rest;
    EmailMatchesSplit(local, rest);
    assert EmailDomainSplit(rest, domain, tld);
    DomainMatchesIff(rest);
  }

  /** `is_valid_email` in declarative terms, with the `$` rule. */
  lemma IsValidEmailIff(s: string)
    ensures IsValidEmail(s) <==>
              EmailShape(s) || (|s| > 0 && s[|s| - 1] == '\n' && EmailShape(s[..|s| - 1]))
  {
    EmailMatchesIff(s);
    if |s| > 0 { EmailMatchesIff(s[..|s| - 1]); }
  }

  lemma DomainHasNoAt(d: string)
    requires DomainMatches(d)
    ensures '@' !in d
  {
    var j := LastIndexOf(d, '.');
    assert d == d[..j] + "." + d[j + 1..];
    assert '@' !in d[..j] && '@' !in d[j + 1..];
  }

  /** A character that occurs at `i` and nowhere else occurs once. */
  lemma CountOnce(s: string, i: nat, c: char)
    requires i < |s| && s[i] == c && c !in s[..i] && c !in s[i + 1..]
    ensures multiset(s)[c] == 1
  {
    assert s == s[..i] + [c] + s[i + 1..];
    assert multiset(s) == multiset(s[..i]) + multiset{c} + multiset(s[i + 1..]);
  }

  lemma MatchHasOneAt(s: string)
    requires EmailMatches(s)
    ensures multiset(s)['@'] == 1
    ensures 1 <= IndexOf(s, '@') < |s|
  {
    var i := AtOfMatch(s);
    DomainHasNoAt(s[i + 1..]);
    IndexOfPrefixFree(s, '@');
    CountOnce(s, i, '@');
  }

  /** Where the scanner finds the `@` of an accepted address. */
  lemma AtOfMatch(s: string) returns (i: nat)
    requires EmailMatches(s)
    ensures i == IndexOf(s, '@') && 1 <= i < |s| && s[i] == '@'
    ensures DomainMatches(s[i + 1..])
  {
    i := IndexOf(s, '@');
  }

  /** A final newline adds no `@`. */
  lemma NewlineKeepsAt(body: string)
    ensures multiset(body + "\n")['@'] == multiset(body)['@']
  {
    assert multiset(body + "\n") == multiset(body) + multiset{'\n'};
  }

  /** A valid address holds exactly one `@`, and does not start with it. */
  lemma ValidEmailHasOneAt(s: string)
    requires IsValidEmail(s)
    ensures multiset(s)['@'] == 1
    ensures s[0] != '@'
  {
    if |s| > 0 && s[|s| - 1] == '\n' {
      NewlineRejected(s);
      var body := s[..|s| - 1];
      assert s == body + "\n";
      MatchHasOneAt(body);
      NewlineKeepsAt(body);
      assert s[0] == body[0];
    } else {
      MatchHasOneAt(s);
    }
  }

  /** Pieces in their classes make a valid address, with or without one
      final newline. */
  lemma PartsValid(local: string, domain: string, tld: string)
    requires local != [] && Every(local, IsLocalChar)
    requires domain != [] && Every(domain, IsDomainChar)
    requires |tld| >= 2 && Every(tld, IsAsciiLetter)
    ensures IsValidEmail(local + "@" + domain + "." + tld)
    ensures IsValidEmail(local + "@" + domain + "." + tld + "\n")
  {
    var s := local + "@" + domain + "." + tld;
    EmailSplitMatches(s, local, domain, tld);
    NewlineAccepted(s);
  }

  /** An address of the suite's own fixtures that the pattern accepts. */
  lemma AcceptedEmailExample()
    ensures IsValidEmail("test" + "@" + "example" + "." + "com")
  {
    PartsValid("test", "example", "com");
  }

  /** The pattern lets two consecutive dots through. */
  lemma DoubleDotEmailExample()
    ensures IsValidEmail("test..test" + "@" + "domain" + "." + "com")
  {
    PartsValid("test..test", "domain", "com");
  }

  /** The `$` rule lets one trailing newline through. */
  lemma TrailingNewlineEmailExample()
    ensures IsValidEmail("a" + "@" + "b" + "." + "co" + "\n")
  {
    PartsValid("a", "b", "co");
  }

  /** A body the scanner accepts stays valid with one newline after it. */
  lemma NewlineAccepted(body: string)
    requires EmailMatches(body)
    ensures IsValidEmail(body + "\n")
  {
    assert (body + "\n")[..|body|] == body;
  }

  /** Without the `$` rule, a final newline would be rejected: it is outside
      every class of the pattern. */
  lemma NewlineRejected(s: string)
    requires |s| > 0 && s[|s| - 1] == '\n'
    ensures !EmailMatches(s)
  {
  }

  lemma RejectedEmailNoAt()
    ensures !IsValidEmail("invalid" + "-email")
  {
    NoAtInvalid("invalid" + "-email");
  }

  lemma RejectedEmailNoLocal()
    ensures !IsValidEmail("@" + "domain.com")
  {
    EmptyLocalInvalid("domain.com");
  }

  lemma RejectedEmailNoDomain()
    ensures !IsValidEmail("test" + "@" + "")
    ensures !IsValidEmail("test" + "@" + "domain")
  {
    NoDotInvalid("test", "");
    NoDotInvalid("test", "domain");
  }

  /** Without an `@` an address is invalid. */
  lemma NoAtInvalid(s: string)
    requires '@' !in s
    ensures !IsValidEmail(s)
  {
    if |s| > 0 {
      assert '@' !in s[..|s| - 1];
    }
  }

  /** Without a local part an address is invalid. */
  lemma EmptyLocalInvalid(rest: string)
    ensures !IsValidEmail("@" + rest)
  {
    ValidEmailParts("", rest);
    assert "" + "@" + rest == "@" + rest;
  }

  /** Without a `.` after the `@` an address is invalid. */
  lemma NoDotInvalid(local: string, rest: string)
    requires '@' !in local
    requires '.' !in rest
    ensures !IsValidEmail(local + "@" + rest)
  {
    ValidEmailParts(local, rest);
    if rest != [] {
      assert '.' !in rest[..|rest| - 1];
    }
  }

  /** The scanner on a local part free of `@`, an `@` and the rest. */
  lemma EmailMatchesAt(local: string, rest: string)
    requires '@' !in local
    ensures EmailMatches(local + "@" + rest) <==>
      local != [] && Every(local, IsLocalChar) && DomainMatches(rest)
  {
    var s := local + "@" + rest;
    IndexOfFirst(local, '@', rest);
    assert s[..|local|] == local && s[|local| + 1..] == rest;
  }

  /** With a local part free of `@`, validity rests on that part being
      non-empty over its class and on the domain, which is the part after
      the `@` with or without the one final newline. */
  lemma ValidEmailParts(local: string, rest: string)
    requires '@' !in local
    ensures IsValidEmail(local + "@" + rest) <==>
      && local != [] && Every(local, IsLocalChar)
      && (DomainMatches(rest) || (rest != [] && rest[|rest| - 1] == '\n' && DomainMatches(rest[..|rest| - 1])))
  {
    if rest != [] && rest[|rest| - 1] == '\n' {
      ValidEmailPartsNewline(local, rest);
    } else {
      ValidEmailPartsPlain(local, rest);
    }
  }

  lemma ValidEmailPartsPlain(local: string, rest: string)
    requires '@' !in local
    requires rest == [] || rest[|rest| - 1] != '\n'
    ensures IsValidEmail(local + "@" + rest) <==>
      local != [] && Every(local, IsLocalChar) && DomainMatches(rest)
  {
    var s := local + "@" + rest;
    EmailMatchesAt(local, rest);
    assert s[|s| - 1] != '\n' by {
      if rest == [] {
        assert s[|s| - 1] == '@';
      } else {
        assert s[|s| - 1] == rest[|rest| - 1];
      }
    }
  }

  lemma ValidEmailPartsNewline(local: string, rest: string)
    requires '@' !in local
    requires rest != [] && rest[|rest| - 1] == '\n'
    ensures IsValidEmail(local + "@" + rest) <==>
      local != [] && Every(local, IsLocalChar) && (DomainMatches(rest) || DomainMatches(rest[..|rest| - 1]))
  {
    EmailMatchesAt(local, rest);
    DropLast(local + "@", rest);
    EmailMatchesAt(local, rest[..|rest| - 1]);
  }

  /** The local part of a valid address is non-empty over its class. */
  lemma ValidEmailLocal(local: string, rest: string)
    requires '@' !in local
    requires IsValidEmail(local + "@" + rest)
    ensures local != [] && Every(local, IsLocalChar)
  {
    ValidEmailParts(local, rest);
  }

  /** Swapping the local part for another valid one keeps an address valid:
      the domain alone decides the rest. */
  lemma ValidEmailLocalSwap(local: string, local2: string, rest: string)
    requires '@' !in local && '@' !in local2
    requires local2 != [] && Every(local2, IsLocalChar)
    requires IsValidEmail(local + "@" + rest)
    ensures IsValidEmail(local2 + "@" + rest)
  {
    ValidEmailParts(local, rest);
    ValidEmailParts(local2, rest);
  }

  // =====================================================================
  // Phone: digits only, 10 or 11 of them
  // =====================================================================

  /** `ValidationHelper.is_valid_phone`: drop every non-digit, then count. */
  predicate IsValidPhone(s: string) {
    var n := |Filter(s, IsDigit)|;
    n == 10 || n == 11
  }

  /** Inserting characters that are not digits anywhere never changes the
      verdict, and an all-digit string is valid exactly when it has 10 or 11
      characters. */
  lemma PhoneIgnoresNonDigits(a: string, u: string, b: string)
    requires NoChar(u, IsDigit)
    ensures IsValidPhone(a + u + b) == IsValidPhone(a + b)
  {
    FilterAppend(a + u, b, IsDigit);
    FilterAppend(a, u, IsDigit);
    FilterAppend(a, b, IsDigit);
    FilterNone(u, IsDigit);
  }

  lemma PhoneDigitsIff(s: string)
    requires Every(s, IsDigit)
    ensures IsValidPhone(s) <==> |s| == 10 || |s| == 11
  {
    FilterEvery(s, IsDigit);
  }

  /** Ten digits pass and three do not. */
  lemma TenDigitPhoneExample()
    ensures IsValidPhone("1234567890")
  {
  }

  lemma ShortPhoneExample()
    ensures !IsValidPhone("123")
  {
  }

  /** Brackets, blanks and dashes do not count. */
  lemma BracketedPhoneExample()
    ensures IsValidPhone("(12) 3456-7890")
  {
  }

  /** Neither do the dots of a number that the suite's form fixtures list
      as invalid. */
  lemma DottedPhoneExample()
    ensures IsValidPhone("123.456.7890")
  {
  }

  // =====================================================================
  // URL: ^https?://(?:[-\w.])+(?:[:\d]+)?(?:/(?:[\w/_.])*(?:\?(?:[\w&=%.])*)?(?:#(?:[\w.])*)?)?$
  // =====================================================================

  predicate IsHostChar(c: char) { c == '-' || IsWordChar(c) || c == '.' }
  predicate IsPortChar(c: char) { c == ':' || IsDigit(c) }
  predicate IsQueryChar(c: char) { IsWordChar(c) || c == '&' || c == '=' || c == '%' || c == '.' }
  predicate IsFragmentChar(c: char) { IsWordChar(c) || c == '.' }

  /** The path class as written, `[\w/_.]`: it has no `-`. */
  predicate IsPathChar(c: char) { IsWordChar(c) || c == '/' || c == '.' }

  /** The path class with `-` added, as the project's own page URLs need. */
  predicate IsPathCharWithHyphen(c: char) { IsPathChar(c) || c == '-' }

  /** A path class the scanner can work with: it stops at `?` and `#`. */
  predicate PathClassOk(pathChar: char -> bool) { !pathChar('?') && !pathChar('#') }

  predicate QueryOk(q: string) { q == [] || (q[0] == '?' && Every(q[1..], IsQueryChar)) }
  predicate FragmentOk(f: string) { f == [] || (f[0] == '#' && Every(f[1..], IsFragmentChar)) }

  /** Length of the optional query at the start of `rest`: a `?` and the
      longest run of query characters after it. */
  function QueryLength(rest: string): (k: nat)
    ensures k <= |rest| && QueryOk(rest[..k])
  {
    if rest != [] && rest[0] == '?' then
      var m := SpanLength(rest[1..], IsQueryChar);
      assert rest[..1 + m][1..] == rest[1..][..m];
      1 + m
    else 0
  }

  /** Scanner for what follows the `/`: the longest run of path characters,
      then an optional query, then an optional fragment up to the end. */
  predicate PathMatches(r: string, pathChar: char -> bool) {
    var rest := r[SpanLength(r, pathChar)..];
    FragmentOk(rest[QueryLength(rest)..])
  }

  /** Length of host and port at the start of `t`: the longest run of host
      characters, then the longest run of port characters. */
  function AuthorityLength(t: string): (n: nat)
    ensures SpanLength(t, IsHostChar) <= n <= |t|
  {
    var n1 := SpanLength(t, IsHostChar);
    n1 + SpanLength(t[n1..], IsPortChar)
  }

  /** Scanner for what follows the scheme: a non-empty host, a port, then
      nothing or `/` and a path. */
  predicate AfterSchemeMatches(t: string, pathChar: char -> bool) {
    var n := AuthorityLength(t);
    && SpanLength(t, IsHostChar) >= 1
    && (n == |t| || (t[n] == '/' && PathMatches(t[n + 1..], pathChar)))
  }

  predicate UrlMatches(s: string, pathChar: char -> bool) {
    if |s| >= 8 && s[..8] == "https://" then AfterSchemeMatches(s[8..], pathChar)
    else if |s| >= 7 && s[..7] == "http://" then AfterSchemeMatches(s[7..], pathChar)
    else false
  }

  predicate UrlMatchesAsWritten(s: string) { UrlMatches(s, IsPathChar) }
  predicate UrlMatchesWithHyphen(s: string) { UrlMatches(s, IsPathCharWithHyphen) }

  /** `ValidationHelper.is_valid_url`, as written. */
  predicate IsValidUrl(s: string) {
    EndAnchored(s, UrlMatchesAsWritten)
  }

  /** `is_valid_url` with `-` allowed in the path. */
  predicate IsValidUrlWithHyphen(s: string) {
    EndAnchored(s, UrlMatchesWithHyphen)
  }

  // The pattern read declaratively, one optional group at a time.

  ghost predicate PathSplit(r: string, pathChar: char -> bool, path: string, query: string, fragment: string) {
    r == path + query + fragment && Every(path, pathChar) && QueryOk(query) && FragmentOk(fragment)
  }

  ghost predicate PathShape(r: string, pathChar: char -> bool) {
    exists path, query, fragment :: PathSplit(r, pathChar, path, query, fragment)
  }

  ghost predicate AfterSchemeSplit(t: string, pathChar: char -> bool, host: string, port: string, tail: string) {
    && t == host + port + tail
    && host != [] && Every(host, IsHostChar)
    && Every(port, IsPortChar)
    && (tail == [] || (tail[0] == '/' && PathShape(tail[1..], pathChar)))
  }

  ghost predicate AfterSchemeShape(t: string, pathChar: char -> bool) {
    exists host, port, tail :: AfterSchemeSplit(t, pathChar, host, port, tail)
  }

  ghost predicate UrlShape(s: string, pathChar: char -> bool) {
    || (|s| >= 7 && s[..7] == "http://" && AfterSchemeShape(s[7..], pathChar))
    || (|s| >= 8 && s[..8] == "https://" && AfterSchemeShape(s[8..], pathChar))
  }

  lemma PathSound(r: string, pathChar: char -> bool)
    requires PathMatches(r, pathChar)
    ensures PathShape(r, pathChar)
  {
    var path, query, fragment := PathPieces(r, pathChar);
  }

  /** The pieces the path scanner cuts `r` into. */
  lemma PathPieces(r: string, pathChar: char -> bool) returns (path: string, query: string, fragment: string)
    requires PathMatches(r, pathChar)
    ensures PathSplit(r, pathChar, path, query, fragment)
  {
    var n := SpanLength(r, pathChar);
    var rest := r[n..];
    var k := QueryLength(rest);
    SpanPrefix(r, pathChar);
    SplitThree(r, n, k);
    path, query, fragment := r[..n], rest[..k], rest[k..];
  }

  /** Cutting a string at two points and gluing the three pieces back. */
  lemma SplitThree(r: string, n: nat, k: nat)
    requires n <= |r| && k <= |r| - n
    ensures r == r[..n] + r[n..][..k] + r[n..][k..]
  {
    assert r[n..] == r[n..][..k] + r[n..][k..];
    assert r == r[..n] + r[n..];
  }

  lemma QueryLengthOf(query: string, fragment: string)
    requires QueryOk(query) && FragmentOk(fragment)
    ensures QueryLength(query + fragment) == |query|
  {
    var rest := query + fragment;
    if query != [] {
      assert rest[1..] == query[1..] + fragment;
      SpanOfRun(query[1..], fragment, IsQueryChar);
    } else {
      assert rest == fragment;
    }
  }

  lemma PathComplete(r: string, pathChar: char -> bool, path: string, query: string, fragment: string)
    requires PathClassOk(pathChar)
    requires PathSplit(r, pathChar, path, query, fragment)
    ensures PathMatches(r, pathChar)
  {
    var rest := query + fragment;
    assert r == path + rest;
    assert rest == [] || rest[0] == '?' || rest[0] == '#';
    SpanOfRun(path, rest, pathChar);
    assert r[|path|..] == rest;
    QueryLengthOf(query, fragment);
    assert rest[|query|..] == fragment;
  }

  lemma SpanPrefix(s: string, p: char -> bool)
    ensures Every(s[..SpanLength(s, p)], p)
  {
  }

  lemma AfterSchemeSound(t: string, pathChar: char -> bool)
    requires AfterSchemeMatches(t, pathChar)
    ensures AfterSchemeShape(t, pathChar)
  {
    var host, port, tail := AfterSchemePieces(t, pathChar);
  }

  /** The pieces the authority scan cuts `t` into. */
  lemma AfterSchemePieces(t: string, pathChar: char -> bool) returns (host: string, port: string, tail: string)
    requires AfterSchemeMatches(t, pathChar)
    ensures AfterSchemeSplit(t, pathChar, host, port, tail)
  {
    var n1, n := AuthorityPieces(t);
    host, port, tail := t[..n1], t[n1..n], t[n..];
    assert host != [];
    TailShape(t, n, pathChar);
  }

  /** What follows the authority is empty, or a `/` and a path the
      scanner accepts. */
  lemma TailShape(t: string, n: nat, pathChar: char -> bool)
    requires AfterSchemeMatches(t, pathChar) && n == AuthorityLength(t)
    ensures t[n..] == [] || (t[n..][0] == '/' && PathShape(t[n..][1..], pathChar))
  {
    if n < |t| {
      assert t[n..][1..] == t[n + 1..];
      PathSound(t[n + 1..], pathChar);
    }
  }

  /** The greedy scan cuts `t` into a host run, a port run and the rest. */
  lemma AuthorityPieces(t: string) returns (n1: nat, n: nat)
    ensures n1 == SpanLength(t, IsHostChar) && n == AuthorityLength(t) && n1 <= n <= |t|
    ensures t == t[..n1] + t[n1..n] + t[n..]
    ensures Every(t[..n1], IsHostChar) && Every(t[n1..n], IsPortChar)
  {
    n1 := SpanLength(t, IsHostChar);
    n := AuthorityLength(t);
    SpanPrefix(t, IsHostChar);
    SpanPrefix(t[n1..], IsPortChar);
    assert t[n1..n] == t[n1..][..n - n1];
    SplitThree(t, n1, n - n1);
  }

  /** The leading digits of a port are host characters too; the first
      character after them, if any, is `:`. */
  lemma PortDigits(port: string) returns (j: nat)
    requires Every(port, IsPortChar)
    ensures j <= |port| && Every(port[..j], IsHostChar)
    ensures j < |port| ==> port[j] == ':'
  {
    j := SpanLength(port, IsDigit);
  }

  /** The greedy scan of host then port finds any split the pattern allows. */
  lemma AuthorityLengthOf(host: string, port: string, tail: string)
    requires host != [] && Every(host, IsHostChar) && Every(port, IsPortChar)
    requires tail == [] || tail[0] == '/'
    ensures SpanLength(host + port + tail, IsHostChar) >= 1
    ensures AuthorityLength(host + port + tail) == |host| + |port|
  {
    var t := host + port + tail;
    var j := PortDigits(port);
    var head, t1 := host + port[..j], port[j..] + tail;
    Regroup(host, port, tail, j);
    HostRunEnds(host, port, tail, j);
    PortRunEnds(port, tail, j);
    assert t[|head|..] == t1;
  }

  lemma Regroup(host: string, port: string, tail: string, j: nat)
    requires j <= |port|
    ensures host + port + tail == (host + port[..j]) + (port[j..] + tail)
  {
    assert port == port[..j] + port[j..];
  }

  /** The host run stops after the port's leading digits. */
  lemma HostRunEnds(host: string, port: string, tail: string, j: nat)
    requires Every(host, IsHostChar) && j <= |port| && Every(port[..j], IsHostChar)
    requires j < |port| ==> port[j] == ':'
    requires tail == [] || tail[0] == '/'
    ensures SpanLength((host + port[..j]) + (port[j..] + tail), IsHostChar) == |host| + j
  {
    var a, t1 := host + port[..j], port[j..] + tail;
    EveryConcat(host, port[..j], IsHostChar);
    AfterPortDigits(port, tail, j);
    SeparatorsNotHost();
    SpanOfRun(a, t1, IsHostChar);
  }

  /** `:` and `/` end a host. */
  lemma SeparatorsNotHost()
    ensures !IsHostChar(':') && !IsHostChar('/')
  {
  }

  /** What follows the port's leading digits starts with `:` or `/`, if
      anything follows. */
  lemma AfterPortDigits(port: string, tail: string, j: nat)
    requires j <= |port| && (j < |port| ==> port[j] == ':')
    requires tail == [] || tail[0] == '/'
    ensures port[j..] + tail == [] || (port[j..] + tail)[0] in ":/"
  {
    if j == |port| {
      assert port[j..] + tail == tail;
    }
  }

  /** The port run then takes the rest of the port. */
  lemma PortRunEnds(port: string, tail: string, j: nat)
    requires Every(port, IsPortChar) && j <= |port|
    requires tail == [] || tail[0] == '/'
    ensures SpanLength(port[j..] + tail, IsPortChar) == |port| - j
  {
    assert Every(port[j..], IsPortChar);
    SpanOfRun(port[j..], tail, IsPortChar);
  }

  lemma PathShapeMatches(r: string, pathChar: char -> bool)
    requires PathClassOk(pathChar) && PathShape(r, pathChar)
    ensures PathMatches(r, pathChar)
  {
    var path, query, fragment :| PathSplit(r, pathChar, path, query, fragment);
    PathComplete(r, pathChar, path, query, fragment);
  }

  lemma AfterSchemeComplete(t: string, pathChar: char -> bool, host: string, port: string, tail: string)
    requires PathClassOk(pathChar)
    requires AfterSchemeSplit(t, pathChar, host, port, tail)
    ensures AfterSchemeMatches(t, pathChar)
  {
    AuthorityLengthOf(host, port, tail);
    var n := |host| + |port|;
    assert AuthorityLength(t) == n;
    assert t[n..] == tail;
    if tail != [] {
      assert t[n + 1..] == tail[1..];
      PathShapeMatches(tail[1..], pathChar);
    }
  }

  lemma AfterSchemeIff(t: string, pathChar: char -> bool)
    requires PathClassOk(pathChar)
    ensures AfterSchemeMatches(t, pathChar) <==> AfterSchemeShape(t, pathChar)
  {
    if AfterSchemeMatches(t, pathChar) {
      AfterSchemeSound(t, pathChar);
    }
    if AfterSchemeShape(t, pathChar) {
      var host, port, tail :| AfterSchemeSplit(t, pathChar, host, port, tail);
      AfterSchemeComplete(t, pathChar, host, port, tail);
    }
  }

  /** The URL scanner accepts exactly the strings that split as the pattern
      says, for either path class. */
  lemma UrlMatchesIff(s: string, pathChar: char -> bool)
    requires PathClassOk(pathChar)
    ensures UrlMatches(s, pathChar) <==> UrlShape(s, pathChar)
  {
    if |s| >= 8 && s[..8] == "https://" {
      HttpsNotHttp(s);
      AfterSchemeIff(s[8..], pathChar);
    } else if |s| >= 7 && s[..7] == "http://" {
      AfterSchemeIff(s[7..], pathChar);
    }
  }

  /** A string starting "https://" does not start "http://". */
  lemma HttpsNotHttp(s: string)
    requires |s| >= 8 && s[..8] == "https://"
    ensures s[..7] != "http://"
  {
    assert s[..7][4] == s[..8][4] == 's';
  }

  /** With the path class as written, nothing after the authority can hold
      a `-`: neither the path, nor the query, nor the fragment allow it. */
  lemma PathHasNoHyphen(r: string)
    requires PathMatches(r, IsPathChar)
    ensures '-' !in r
  {
    var path, query, fragment := PathPieces(r, IsPathChar);
    NotInClass(path, IsPathChar, '-');
    NotInTagged(query, '?', IsQueryChar, '-');
    NotInTagged(fragment, '#', IsFragmentChar, '-');
  }

  /** A character outside the class is not in a string over the class. */
  lemma NotInClass(s: string, p: char -> bool, c: char)
    requires Every(s, p) && !p(c)
    ensures c !in s
  {
  }

  /** The same for an optional group that starts with a tag character. */
  lemma NotInTagged(s: string, tag: char, p: char -> bool, c: char)
    requires s == [] || (s[0] == tag && Every(s[1..], p))
    requires c != tag && !p(c)
    ensures c !in s
  {
    if s != [] {
      assert s == [tag] + s[1..];
    }
  }

  predicate IsScheme(scheme: string) { scheme == "http://" || scheme == "https://" }

  /** The scanner hands everything after the scheme to the authority scan. */
  lemma UrlMatchesScheme(scheme: string, t: string, pathChar: char -> bool)
    requires IsScheme(scheme)
    ensures UrlMatches(scheme + t, pathChar) == AfterSchemeMatches(t, pathChar)
  {
    if scheme == "https://" {
      HttpsPrefix(t, pathChar);
    } else {
      HttpPrefix(t, pathChar);
    }
  }

  lemma HttpsPrefix(t: string, pathChar: char -> bool)
    ensures UrlMatches("https://" + t, pathChar) == AfterSchemeMatches(t, pathChar)
  {
    PrefixParts("https://", t);
  }

  lemma HttpPrefix(t: string, pathChar: char -> bool)
    ensures UrlMatches("http://" + t, pathChar) == AfterSchemeMatches(t, pathChar)
  {
    var s := "http://" + t;
    PrefixParts("http://", t);
    HttpNotHttps(s);
  }

  /** A string starting "http://" does not start "https://". */
  lemma HttpNotHttps(s: string)
    requires |s| >= 7 && s[..7] == "http://"
    ensures |s| < 8 || s[..8] != "https://"
  {
    assert s[..7][4] == s[4] == ':';
  }

  /** A prefix and what follows it, read back from their concatenation. */
  lemma PrefixParts(a: string, t: string)
    ensures (a + t)[..|a|] == a && (a + t)[|a|..] == t
  {
  }

  lemma ConcatAssoc(a: string, b: string, c: string, d: string)
    ensures a + b + c + d == a + (b + c + d)
  {
  }

  /** A scheme, a host and a path of class characters make a URL. */
  lemma UrlWithPathMatches(scheme: string, host: string, path: string, pathChar: char -> bool)
    requires IsScheme(scheme) && PathClassOk(pathChar)
    requires host != [] && Every(host, IsHostChar) && Every(path, pathChar)
    ensures UrlMatches(scheme + host + "/" + path, pathChar)
  {
    var t := host + "" + ("/" + path);
    ConcatAssoc(scheme, host, "/", path);
    assert t == host + "/" + path;
    assert PathSplit(path, pathChar, path, "", "");
    AfterSchemeComplete(t, pathChar, host, "", "/" + path);
    UrlMatchesScheme(scheme, t, pathChar);
  }

  /** A scheme and a host alone make a URL. */
  lemma BareUrlMatches(scheme: string, host: string, pathChar: char -> bool)
    requires IsScheme(scheme) && PathClassOk(pathChar)
    requires host != [] && Every(host, IsHostChar)
    ensures UrlMatches(scheme + host, pathChar)
  {
    UrlMatchesScheme(scheme, host, pathChar);
    assert host == host + "" + "";
    AfterSchemeComplete(host, pathChar, host, "", "");
  }

  /** As written, a `-` anywhere after the host's `/` makes the URL fail,
      with or without a final newline. */
  lemma HyphenatedPathRejected(scheme: string, host: string, rest: string)
    requires IsScheme(scheme) && host != [] && Every(host, IsHostChar)
    requires '-' in rest
    ensures !IsValidUrl(scheme + host + "/" + rest)
  {
    HyphenatedPathNoMatch(scheme, host, rest);
    HyphenatedBodyNoMatch(scheme, host, rest);
    UrlRejected(scheme + host + "/" + rest);
  }

  /** The same holds once a final newline is dropped. */
  lemma HyphenatedBodyNoMatch(scheme: string, host: string, rest: string)
    requires IsScheme(scheme) && host != [] && Every(host, IsHostChar)
    requires '-' in rest
    ensures var s := scheme + host + "/" + rest;
      s[|s| - 1] == '\n' ==> !UrlMatches(s[..|s| - 1], IsPathChar)
  {
    DropLast(scheme + host + "/", rest);
    if rest[|rest| - 1] == '\n' {
      HyphenBeforeNewline(rest);
      HyphenatedPathNoMatch(scheme, host, rest[..|rest| - 1]);
    }
  }

  /** A URL the scanner rejects, with and without its final newline, is
      invalid. */
  lemma UrlRejected(s: string)
    requires !UrlMatches(s, IsPathChar)
    requires |s| > 0 && s[|s| - 1] == '\n' ==> !UrlMatches(s[..|s| - 1], IsPathChar)
    ensures !IsValidUrl(s)
  {
  }

  /** The last character of `a + b` and what comes before it, for a
      non-empty `b`. */
  lemma DropLast(a: string, b: string)
    requires b != []
    ensures (a + b)[|a + b| - 1] == b[|b| - 1]
    ensures (a + b)[..|a + b| - 1] == a + b[..|b| - 1]
  {
  }

  /** A `-` before a final newline is still there once the newline goes. */
  lemma HyphenBeforeNewline(rest: string)
    requires '-' in rest && rest[|rest| - 1] == '\n'
    ensures '-' in rest[..|rest| - 1]
  {
    assert rest == rest[..|rest| - 1] + [rest[|rest| - 1]];
  }

  lemma HyphenatedPathNoMatch(scheme: string, host: string, rest: string)
    requires IsScheme(scheme) && host != [] && Every(host, IsHostChar)
    requires '-' in rest
    ensures !UrlMatches(scheme + host + "/" + rest, IsPathChar)
  {
    var t := host + "" + ("/" + rest);
    ConcatAssoc(scheme, host, "/", rest);
    assert t == host + "/" + rest;
    AuthorityLengthOf(host, "", "/" + rest);
    assert t[|host|] == '/' && t[|host| + 1..] == rest;
    if PathMatches(rest, IsPathChar) {
      PathHasNoHyphen(rest);
    }
    UrlMatchesScheme(scheme, t, IsPathChar);
  }
}
