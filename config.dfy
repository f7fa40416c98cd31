/** `Settings` (config/settings.py): values read from the environment, the
    page URLs built on the base URL, and the browser's command-line
    arguments. */
module Config {
  import opened Results
  import opened Text
  import opened ValidationHelper

  // =====================================================================
  // Environment
  // =====================================================================

  /** `os.getenv(name, default)`, with the environment given as a map. */
  function GetEnv(env: map<string, string>, name: string, default: string): (r: string)
    ensures name in env ==> r == env[name]
    ensures name !in env ==> r == default
  {
    if name in env then env[name] else default
  }

  /** `raw.lower() == "true"`. */
  function ParseFlag(raw: string): bool {
    Lower(raw) == "true"
  }

  /** A flag is set exactly by the word "true" in any mix of cases. */
  lemma ParseFlagIff(raw: string)
    ensures ParseFlag(raw) <==> |raw| == 4 && forall i :: 0 <= i < 4 ==> raw[i] == "true"[i] || raw[i] == "TRUE"[i]
  {
    if |raw| == 4 {
      if ParseFlag(raw) {
        forall i | 0 <= i < 4 ensures raw[i] == "true"[i] || raw[i] == "TRUE"[i] {
          assert LowerChar(raw[i]) == "true"[i];
        }
      }
      if forall i :: 0 <= i < 4 ==> raw[i] == "true"[i] || raw[i] == "TRUE"[i] {
        assert forall i :: 0 <= i < 4 ==> Lower(raw)[i] == "true"[i];
      }
    }
  }

  /** The settings the suite reads. The integer settings are taken as
      already parsed. */
  datatype Settings = Settings(
    baseUrl: string, timeout: int, browser: string, headless: bool,
    screenshotPath: string, screenshotOnFailure: bool,
    allureResultsDir: string, htmlReportsDir: string,
    parallelWorkers: int, retryCount: int,
    apiBaseUrl: string, apiTimeout: int,
    logLevel: string, logFormat: string)

  /** The class attributes of `Settings`, read from `env` with their
      defaults. */
  function FromEnvironment(env: map<string, string>, timeout: int, parallelWorkers: int, retryCount: int, apiTimeout: int): (s: Settings)
    ensures s.headless == ParseFlag(GetEnv(env, "HEADLESS", "false"))
    ensures s.screenshotOnFailure == ParseFlag(GetEnv(env, "SCREENSHOT_ON_FAILURE", "true"))
  {
    Settings(
      GetEnv(env, "BASE_URL", "https://demoqa.com"), timeout,
      GetEnv(env, "BROWSER", "chrome"), ParseFlag(GetEnv(env, "HEADLESS", "false")),
      GetEnv(env, "SCREENSHOT_PATH", "reports/screenshots"),
      ParseFlag(GetEnv(env, "SCREENSHOT_ON_FAILURE", "true")),
      GetEnv(env, "ALLURE_RESULTS_DIR", "reports/allure-results"),
      GetEnv(env, "HTML_REPORTS_DIR", "reports/html-reports"),
      parallelWorkers, retryCount,
      GetEnv(env, "API_BASE_URL", "https://demoqa.com/api"), apiTimeout,
      GetEnv(env, "LOG_LEVEL", "INFO"),
      GetEnv(env, "LOG_FORMAT", "%(asctime)s - %(name)s - %(levelname)s - %(message)s"))
  }

  /** With nothing set, the suite runs Chrome with a window, against the
      public site, and takes screenshots on failure. */
  lemma DefaultSettings(timeout: int, parallelWorkers: int, retryCount: int, apiTimeout: int)
    ensures var s := FromEnvironment(map[], timeout, parallelWorkers, retryCount, apiTimeout);
      && s.baseUrl == "https://demoqa.com" && s.browser == "chrome"
      && !s.headless && s.screenshotOnFailure
  {
    assert Lower("false") == "false";
    assert Lower("true") == "true";
  }

  // =====================================================================
  // Page URLs
  // =====================================================================

  datatype Page = Login | Form | ProgressBar | WebTables | Books | Profile

  /** The path of each page below the base URL. */
  function PageName(p: Page): (name: string)
    ensures name != [] && '/' !in name
  {
    match p
    case Login => "login"
    case Form => "automation-practice-form"
    case ProgressBar => "progress-bar"
    case WebTables => "webtables"
    case Books => "books"
    case Profile => "profile"
  }

  /** `LOGIN_URL`, `FORM_URL` and the other page properties. */
  function PageUrl(s: Settings, p: Page): (url: string)
    ensures |url| > |s.baseUrl| + 1 && url[..|s.baseUrl|] == s.baseUrl && url[|s.baseUrl|] == '/'
    ensures url[|s.baseUrl| + 1..] == PageName(p)
  {
    s.baseUrl + "/" + PageName(p)
  }

  /** The page a URL points to, if any. */
  function PageOf(s: Settings, url: string): (r: Option<Page>)
  {
    if url == PageUrl(s, Login) then Some(Login)
    else if url == PageUrl(s, Form) then Some(Form)
    else if url == PageUrl(s, ProgressBar) then Some(ProgressBar)
    else if url == PageUrl(s, WebTables) then Some(WebTables)
    else if url == PageUrl(s, Books) then Some(Books)
    else if url == PageUrl(s, Profile) then Some(Profile)
    else None
  }

  lemma PageNamesDistinct(p: Page, q: Page)
    ensures PageName(p) == PageName(q) ==> p == q
  {
  }

  /** Different pages have different URLs: reading the page back from its
      URL gives the page. */
  lemma PageOfPageUrl(s: Settings, p: Page)
    ensures PageOf(s, PageUrl(s, p)) == Some(p)
  {
    forall q | PageUrl(s, q) == PageUrl(s, p) ensures q == p {
      var n := |s.baseUrl| + 1;
      assert PageUrl(s, q)[n..] == PageName(q);
      assert PageUrl(s, p)[n..] == PageName(p);
      PageNamesDistinct(p, q);
    }
  }

  /** A base URL made of a scheme and a host, as the default one is. */
  predicate BareBase(s: Settings) {
    exists k :: 0 <= k <= |s.baseUrl| && IsScheme(s.baseUrl[..k]) && s.baseUrl[k..] != [] && Every(s.baseUrl[k..], IsHostChar)
  }

  lemma DefaultBaseIsBare(s: Settings)
    requires s.baseUrl == "https://demoqa.com"
    ensures BareBase(s)
  {
    assert s.baseUrl[..8] == "https://" && s.baseUrl[8..] == "demoqa.com";
  }

  lemma PageNameClass(p: Page)
    ensures Every(PageName(p), IsPathCharWithHyphen)
    ensures Every(PageName(p), IsPathChar) <==> p != Form && p != ProgressBar
    ensures p == Form || p == ProgressBar ==> '-' in PageName(p)
  {
    match p
    case Login => PlainName("login");
    case WebTables => PlainName("webtables");
    case Books => PlainName("books");
    case Profile => PlainName("profile");
    case Form =>
      FormNameClass();
      HyphenatedName(PageName(p), 10);
    case ProgressBar =>
      ProgressBarNameClass();
      HyphenatedName(PageName(p), 8);
  }

  /** A name within the path class is within the wider class too. */
  lemma PlainName(name: string)
    requires Every(name, IsPathChar)
    ensures Every(name, IsPathCharWithHyphen)
  {
  }

  /** A name with a `-` is outside the path class as written. */
  lemma HyphenatedName(name: string, i: nat)
    requires i < |name| && name[i] == '-'
    ensures !Every(name, IsPathChar) && '-' in name
  {
    assert !IsPathChar(name[i]);
  }

  lemma FormNameClass()
    ensures Every("automation-practice-form", IsPathCharWithHyphen)
    ensures "automation-practice-form"[10] == '-'
  {
  }

  lemma ProgressBarNameClass()
    ensures Every("progress-bar", IsPathCharWithHyphen)
    ensures "progress-bar"[8] == '-'
  {
  }

  /** The scheme and host a bare base URL is made of. */
  lemma BareBaseParts(s: Settings) returns (scheme: string, host: string)
    requires BareBase(s)
    ensures IsScheme(scheme) && host != [] && Every(host, IsHostChar)
    ensures s.baseUrl == scheme + host
  {
    var k :| 0 <= k <= |s.baseUrl| && IsScheme(s.baseUrl[..k]) && s.baseUrl[k..] != [] && Every(s.baseUrl[k..], IsHostChar);
    scheme, host := s.baseUrl[..k], s.baseUrl[k..];
    assert s.baseUrl == scheme + host;
  }

  /** The class with `-` accepts every page URL. */
  lemma PageUrlValidWithHyphen(s: Settings, p: Page)
    requires BareBase(s)
    ensures IsValidUrlWithHyphen(PageUrl(s, p))
  {
    var scheme, host := BareBaseParts(s);
    PageNameClass(p);
    UrlWithPathMatches(scheme, host, PageName(p), IsPathCharWithHyphen);
    assert UrlMatchesWithHyphen(PageUrl(s, p));
  }

  /** `is_valid_url` accepts the page URLs without a `-`. */
  lemma PlainPageUrlValid(s: Settings, p: Page)
    requires BareBase(s) && p != Form && p != ProgressBar
    ensures IsValidUrl(PageUrl(s, p))
  {
    var scheme, host := BareBaseParts(s);
    PageNameClass(p);
    UrlWithPathMatches(scheme, host, PageName(p), IsPathChar);
    assert UrlMatchesAsWritten(PageUrl(s, p));
  }

  /** `is_valid_url` rejects the two page URLs with a `-`. */
  lemma HyphenatedPageUrlInvalid(s: Settings, p: Page)
    requires BareBase(s) && (p == Form || p == ProgressBar)
    ensures !IsValidUrl(PageUrl(s, p))
  {
    var scheme, host := BareBaseParts(s);
    PageNameClass(p);
    HyphenatedPathRejected(scheme, host, PageName(p));
  }

  /** On a bare base URL, `is_valid_url` rejects exactly the two page URLs
      with a `-` in their path, and the class with `-` accepts all six. */
  lemma PageUrlValidity(s: Settings, p: Page)
    requires BareBase(s)
    ensures IsValidUrl(PageUrl(s, p)) <==> p != Form && p != ProgressBar
    ensures IsValidUrlWithHyphen(PageUrl(s, p))
  {
    PageUrlValidWithHyphen(s, p);
    if p == Form || p == ProgressBar {
      HyphenatedPageUrlInvalid(s, p);
    } else {
      PlainPageUrlValid(s, p);
    }
  }

  // =====================================================================
  // get_browser_options
  // =====================================================================

  const ChromeArgs: seq<string> := ["--no-sandbox", "--disable-dev-shm-usage", "--disable-gpu", "--window-size=1920,1080"]
  const FirefoxArgs: seq<string> := ["--width=1920", "--height=1080"]
  const EdgeArgs: seq<string> := ["--no-sandbox", "--disable-dev-shm-usage", "--window-size=1920,1080"]

  predicate Supported(browser: string) {
    browser == "chrome" || browser == "firefox" || browser == "edge"
  }

  /** What `get_browser_options` returns: `{"args": [...]}` for the three
      names it knows, spelled exactly, with "--headless" last when
      headless; `{}` for any other name. */
  function BrowserOptions(browser: string, headless: bool): (options: map<string, seq<string>>)
  {
    if !Supported(browser) then map[]
    else
      var base := if browser == "chrome" then ChromeArgs else if browser == "firefox" then FirefoxArgs else EdgeArgs;
      map["args" := base + (if headless then ["--headless"] else [])]
  }

  /** `Settings.get_browser_options`: builds a fresh table of argument lists,
      appends "--headless" to the configured browser's list when headless,
      and looks the browser up. */
  method GetBrowserOptions(s: Settings) returns (result: map<string, seq<string>>)
    ensures result == BrowserOptions(s.browser, s.headless)
  {
    var options: map<string, map<string, seq<string>>> := map[
      "chrome" := map["args" := ChromeArgs],
      "firefox" := map["args" := FirefoxArgs],
      "edge" := map["args" := EdgeArgs]
    ];
    if s.headless {
      if s.browser == "chrome" {
        options := options["chrome" := map["args" := options["chrome"]["args"] + ["--headless"]]];
      } else if s.browser == "firefox" {
        options := options["firefox" := map["args" := options["firefox"]["args"] + ["--headless"]]];
      } else if s.browser == "edge" {
        options := options["edge" := map["args" := options["edge"]["args"] + ["--headless"]]];
      }
    }
    assert |"chrome"| == 6 && |"firefox"| == 7 && |"edge"| == 4;
    var h: seq<string> := if s.headless then ["--headless"] else [];
    assert ChromeArgs + [] == ChromeArgs && FirefoxArgs + [] == FirefoxArgs && EdgeArgs + [] == EdgeArgs;
    assert options == map[
      "chrome" := map["args" := ChromeArgs + (if s.browser == "chrome" then h else [])],
      "firefox" := map["args" := FirefoxArgs + (if s.browser == "firefox" then h else [])],
      "edge" := map["args" := EdgeArgs + (if s.browser == "edge" then h else [])]
    ];
    if s.browser in options {
      result := options[s.browser];
    } else {
      result := map[];
    }
  }

  /** Two calls in a row give the same options, with "--headless" at most
      once. Here this follows from the method's result being a function of
      the settings: each call builds its table in a fresh local value, so
      the model cannot show what sharing one table between calls would
      change. */
  method GetBrowserOptionsTwice(s: Settings) returns (first: map<string, seq<string>>, second: map<string, seq<string>>)
    ensures first == second
    ensures Supported(s.browser) ==> "args" in second && multiset(second["args"])["--headless"] == (if s.headless then 1 else 0)
    ensures !Supported(s.browser) ==> second == map[]
  {
    first := GetBrowserOptions(s);
    second := GetBrowserOptions(s);
    if Supported(s.browser) {
      HeadlessOnceAndLast(s.browser, s.headless);
    }
  }

  /** Names are matched exactly: anything but the three lower-case names
      gets no options at all. */
  lemma OptionsOnlyForKnownNames(browser: string, headless: bool)
    ensures BrowserOptions(browser, headless) == map[] <==> !Supported(browser)
    ensures Supported(browser) ==> BrowserOptions(browser, headless).Keys == {"args"}
  {
  }

  /** Four arguments for Chrome, two for Firefox, three for Edge, before
      "--headless". */
  lemma BaseArgumentCounts(headless: bool)
    ensures |BrowserOptions("chrome", headless)["args"]| == 4 + (if headless then 1 else 0)
    ensures |BrowserOptions("firefox", headless)["args"]| == 2 + (if headless then 1 else 0)
    ensures |BrowserOptions("edge", headless)["args"]| == 3 + (if headless then 1 else 0)
  {
  }

  /** "--headless" is in the list exactly once, and last, when headless, and
      not at all otherwise. */
  lemma HeadlessOnceAndLast(browser: string, headless: bool)
    requires Supported(browser)
    ensures var args := BrowserOptions(browser, headless)["args"];
      && multiset(args)["--headless"] == (if headless then 1 else 0)
      && (headless ==> args[|args| - 1] == "--headless")
  {
    var base := if browser == "chrome" then ChromeArgs else if browser == "firefox" then FirefoxArgs else EdgeArgs;
    BaseArgsNotHeadless();
    assert BrowserOptions(browser, headless)["args"] == base + (if headless then ["--headless"] else []);
    assert multiset(base)["--headless"] == 0;
  }

  lemma BaseArgsNotHeadless()
    ensures "--headless" !in ChromeArgs && "--headless" !in FirefoxArgs && "--headless" !in EdgeArgs
  {
    forall a | a in ChromeArgs || a in FirefoxArgs || a in EdgeArgs ensures a != "--headless" {
      assert |a| != |"--headless"|;
    }
  }
}
