/** The pytest hooks of tests/conftest.py that hold logic: the marker a test
    gets from its location, and the browser the fixtures start. */
module Conftest {
  import opened Results
  import opened Text
  import Config

  // =====================================================================
  // pytest_collection_modifyitems
  // =====================================================================

  datatype Marker = Api | Ui | Bdd | Performance | Accessibility

  /** The text looked for in a test's path for each marker. */
  function MarkerName(m: Marker): (name: string)
    ensures name != []
  {
    match m
    case Api => "api"
    case Ui => "ui"
    case Bdd => "bdd"
    case Performance => "performance"
    case Accessibility => "accessibility"
  }

  /** The rule's chain of tests, in the order the hook tries them. */
  const Chain: seq<Marker> := [Api, Ui, Bdd, Performance, Accessibility]

  /** The position of each marker in the chain. */
  function Rank(m: Marker): (r: nat)
    ensures r < |Chain| && Chain[r] == m
  {
    match m
    case Api => 0
    case Ui => 1
    case Bdd => 2
    case Performance => 3
    case Accessibility => 4
  }

  lemma RankOfChain(k: nat)
    requires k < |Chain|
    ensures Rank(Chain[k]) == k
  {
  }

  /** No marker of `ms` has its name in `path`. */
  ghost predicate NoneOccurs(path: string, ms: seq<Marker>) {
    forall m :: m in ms ==> !OccursIn(MarkerName(m), path)
  }

  /** The position of the first marker of `ms` whose name occurs in `path`,
      or `|ms|` when none does: a run of `if name in path ... elif ...`. */
  function FirstFound(path: string, ms: seq<Marker>): (k: nat)
    ensures k <= |ms|
    ensures k < |ms| ==> OccursIn(MarkerName(ms[k]), path)
    ensures NoneOccurs(path, ms[..k])
  {
    if ms == [] then 0
    else
      ContainsMeansOccurs(path, MarkerName(ms[0]));
      if Contains(path, MarkerName(ms[0])) then 0
      else
        var k := FirstFound(path, ms[1..]);
        assert ms[..k + 1] == [ms[0]] + ms[1..][..k];
        1 + k
  }

  /** The marker a test at `path` receives: the first name of the chain
      that occurs in the path, or none. */
  function Classify(path: string): (r: Option<Marker>)
    ensures r.None? <==> forall m :: !OccursIn(MarkerName(m), path)
    ensures r.Some? ==> OccursIn(MarkerName(r.value), path)
    ensures r.Some? ==> forall m :: Rank(m) < Rank(r.value) ==> !OccursIn(MarkerName(m), path)
  {
    var k := FirstFound(path, Chain);
    EarlierNotFound(path, k);
    if k < |Chain| then
      RankOfChain(k);
      Some(Chain[k])
    else
      None
  }

  /** Every marker ranked before the first found one has no name in the
      path. */
  lemma EarlierNotFound(path: string, k: nat)
    requires k <= |Chain| && NoneOccurs(path, Chain[..k])
    ensures forall m :: Rank(m) < k ==> !OccursIn(MarkerName(m), path)
  {
    forall m | Rank(m) < k ensures !OccursIn(MarkerName(m), path) {
      assert Chain[..k][Rank(m)] == m;
    }
  }

  /** The markers the hook adds to a test at `path`. */
  function Added(path: string): seq<Marker> {
    match Classify(path)
    case None => []
    case Some(m) => [m]
  }

  /** At most one marker is added, and none exactly when no name of the
      chain occurs in the path. */
  lemma AddedAtMostOne(path: string)
    ensures |Added(path)| <= 1
    ensures Added(path) == [] <==> forall m :: !OccursIn(MarkerName(m), path)
  {
  }

  /** A collected test: its path and the markers it carries. */
  class Item {
    const fspath: string
    var markers: seq<Marker>

    constructor (fspath: string, markers: seq<Marker>)
      ensures this.fspath == fspath && this.markers == markers
    {
      this.fspath := fspath;
      this.markers := markers;
    }
  }

  /** `pytest_collection_modifyitems`: every test gets the marker its path
      selects appended to its markers, and nothing else changes; the list of
      tests itself is left as it is. */
  method ModifyItems(items: seq<Item>)
    requires forall i, j :: 0 <= i < j < |items| ==> items[i] != items[j]
    modifies set item | item in items
    ensures forall i :: 0 <= i < |items| ==> items[i].markers == old(items[i].markers) + Added(items[i].fspath)
  {
    for k := 0 to |items|
      invariant forall i :: 0 <= i < k ==> items[i].markers == old(items[i].markers) + Added(items[i].fspath)
      invariant forall i :: k <= i < |items| ==> items[i].markers == old(items[i].markers)
    {
      var item := items[k];
      assert forall i :: 0 <= i < |items| && i != k ==> items[i] != item;
      match Classify(item.fspath) {
        case Some(m) => item.markers := item.markers + [m];
        case None =>
      }
    }
  }

  /** A path containing "api" is an API test whatever else it contains. */
  lemma ApiWins(path: string)
    requires OccursIn("api", path)
    ensures Classify(path) == Some(Api)
    ensures Added(path) == [Api]
  {
    assert MarkerName(Api) == "api";
  }

  /** The marker is decided by the earliest name in the chain, not by where
      the names stand in the path: "ui" comes before "performance". */
  lemma ChainOrderDecides(dir: string, file: string)
    requires !OccursIn("api", dir + file)
    requires OccursIn("ui", file) && OccursIn("performance", dir)
    ensures Classify(dir + file) == Some(Ui)
  {
    var i :| OccursAt("ui", file, i);
    assert (dir + file)[|dir| + i..|dir| + i + 2] == file[i..i + 2];
    assert OccursAt("ui", dir + file, |dir| + i);
    assert MarkerName(Api) == "api" && MarkerName(Ui) == "ui";
  }

  // =====================================================================
  // The browser and browser_function fixtures
  // =====================================================================

  datatype BrowserKind = Chrome | Firefox | Edge

  /** A started driver: which browser, and the command-line arguments its
      setup function passed to it. */
  datatype Driver = Driver(kind: BrowserKind, args: seq<string>)

  /** The argument `_setup_chrome_driver` adds after the configured ones;
      the Firefox and Edge setups add none. */
  const ChromeExtraArgs: seq<string> := ["--disable-blink-features=AutomationControlled"]

  /** The arguments a setup function passes: the configured ones, then its
      own. */
  function SetupArgs(kind: BrowserKind, configured: seq<string>): (args: seq<string>)
    ensures |args| >= |configured| && args[..|configured|] == configured
    ensures kind == Chrome ==> args[|configured|..] == ChromeExtraArgs
    ensures kind != Chrome ==> args == configured
  {
    if kind == Chrome then configured + ChromeExtraArgs else configured
  }

  /** The setup's own argument is never "--headless", so headless mode is
      decided by the configured arguments alone. */
  lemma SetupArgsHeadless(kind: BrowserKind, configured: seq<string>)
    ensures "--headless" in SetupArgs(kind, configured) <==> "--headless" in configured
  {
    if kind == Chrome {
      assert SetupArgs(kind, configured) == configured + ChromeExtraArgs;
      assert "--headless" !in ChromeExtraArgs;
    }
  }

  /** `browser_options.get("args", [])` in `_setup_chrome_driver` and its
      siblings: the arguments looked up under the configured name as it
      is spelled. */
  function DriverArgs(s: Config.Settings): (args: seq<string>)
    ensures Config.Supported(s.browser) ==> args == Config.BrowserOptions(s.browser, s.headless)["args"]
    ensures !Config.Supported(s.browser) ==> args == []
  {
    var options := Config.BrowserOptions(s.browser, s.headless);
    if "args" in options then options["args"] else []
  }

  /** The fixtures' dispatch: the configured name, lower-cased, chooses the
      driver; any other name raises `ValueError`. */
  function StartBrowser(s: Config.Settings): (r: Result<Driver>)
    ensures r.Ok? <==> Config.Supported(Lower(s.browser))
    ensures r.Ok? ==> r.value.args == SetupArgs(r.value.kind, DriverArgs(s))
    ensures r.Ok? && Lower(s.browser) == "chrome" ==> r.value.kind == Chrome
    ensures r.Ok? && Lower(s.browser) == "firefox" ==> r.value.kind == Firefox
    ensures r.Ok? && Lower(s.browser) == "edge" ==> r.value.kind == Edge
    ensures r.Err? ==> r.message == "Unsupported browser: " + s.browser
  {
    var name := Lower(s.browser);
    if name == "chrome" then Ok(Driver(Chrome, SetupArgs(Chrome, DriverArgs(s))))
    else if name == "firefox" then Ok(Driver(Firefox, SetupArgs(Firefox, DriverArgs(s))))
    else if name == "edge" then Ok(Driver(Edge, SetupArgs(Edge, DriverArgs(s))))
    else Err("Unsupported browser: " + s.browser)
  }

  /** A name spelled in lower case starts its browser with its own
      arguments, "--headless" among them exactly when headless. */
  lemma LowerCaseNameGetsOptions(s: Config.Settings)
    requires Config.Supported(s.browser)
    ensures StartBrowser(s).Ok?
    ensures "--headless" in StartBrowser(s).value.args <==> s.headless
  {
    LowerOfSupported(s.browser);
    HeadlessArgIff(s.browser, s.headless);
    SetupArgsHeadless(StartBrowser(s).value.kind, DriverArgs(s));
  }

  /** The three supported names are already in lower case. */
  lemma LowerOfSupported(name: string)
    requires Config.Supported(name)
    ensures Lower(name) == name
  {
    if name == "chrome" {
      assert Lower("chrome") == "chrome";
    } else if name == "firefox" {
      assert Lower("firefox") == "firefox";
    } else {
      assert Lower("edge") == "edge";
    }
  }

  /** "--headless" is among a supported browser's arguments exactly when
      headless. */
  lemma HeadlessArgIff(browser: string, headless: bool)
    requires Config.Supported(browser)
    ensures "--headless" in Config.BrowserOptions(browser, headless)["args"] <==> headless
  {
    Config.HeadlessOnceAndLast(browser, headless);
    var args := Config.BrowserOptions(browser, headless)["args"];
    assert "--headless" in args <==> multiset(args)["--headless"] > 0;
  }

  /** As written, a name the dispatch accepts in another spelling, such as
      "Chrome", starts the browser with none of the configured arguments:
      only the setup's own, so a headless run opens a window. */
  lemma MixedCaseLosesOptions(s: Config.Settings)
    requires Config.Supported(Lower(s.browser)) && !Config.Supported(s.browser)
    ensures StartBrowser(s).Ok?
    ensures StartBrowser(s).value.args == SetupArgs(StartBrowser(s).value.kind, [])
    ensures "--headless" !in StartBrowser(s).value.args
  {
    SetupArgsHeadless(StartBrowser(s).value.kind, []);
  }

  /** "Chrome" is such a name: Chrome starts with the setup's own argument
      only. */
  lemma CapitalisedChromeExample(s: Config.Settings)
    requires s.browser == "Chrome" && s.headless
    ensures StartBrowser(s) == Ok(Driver(Chrome, ["--disable-blink-features=AutomationControlled"]))
  {
    assert Lower("Chrome") == "chrome";
    assert [] + ChromeExtraArgs == ChromeExtraArgs;
  }

  /** The arguments looked up under the lower-cased name, as the dispatch
      spells it. */
  function NormalizedDriverArgs(s: Config.Settings): (args: seq<string>)
    ensures Config.Supported(Lower(s.browser)) ==> args == Config.BrowserOptions(Lower(s.browser), s.headless)["args"]
  {
    var options := Config.BrowserOptions(Lower(s.browser), s.headless);
    if "args" in options then options["args"] else []
  }

  /** The dispatch with the arguments looked up under the same spelling. */
  function StartBrowserNormalized(s: Config.Settings): (r: Result<Driver>)
    ensures r.Ok? <==> Config.Supported(Lower(s.browser))
    ensures r.Err? ==> r.message == "Unsupported browser: " + s.browser
  {
    match StartBrowser(s)
    case Ok(d) => Ok(Driver(d.kind, SetupArgs(d.kind, NormalizedDriverArgs(s))))
    case Err(e) => Err(e)
  }

  /** With the lookup normalised, every accepted name starts its browser
      with its own arguments, and headless exactly when configured. */
  lemma NormalizedKeepsHeadless(s: Config.Settings)
    requires StartBrowserNormalized(s).Ok?
    ensures StartBrowserNormalized(s).value.args != []
    ensures "--headless" in StartBrowserNormalized(s).value.args <==> s.headless
  {
    var d := StartBrowserNormalized(s).value;
    HeadlessArgIff(Lower(s.browser), s.headless);
    Config.HeadlessOnceAndLast(Lower(s.browser), s.headless);
    SetupArgsHeadless(d.kind, NormalizedDriverArgs(s));
    assert |d.args| >= |NormalizedDriverArgs(s)|;
  }
}
