/** The driver around the scanner: how the runner chooses headless mode,
    how a ticket link becomes the URL to open, and the outer loop that
    opens matching tickets until a pass over the list finds none. */
module Runner {
  import opened Text
  import opened RowScan
  import opened FrameResolver
  import opened ShiftMatching

  // ---------------------------------------------------------------------------
  // resolveHeadlessSetting

  /** HEADLESS values, compared after lower-casing, that force a mode. */
  const HeadlessWords: seq<string> := ["1", "true", "yes"]
  const HeadedWords: seq<string> := ["0", "false", "no"]

  /** The mode a non-empty HEADLESS value asks for, if it is recognised. */
  function EnvVerdict(headlessEnv: Option<string>): (r: Option<bool>)
    ensures r == Some(true) <==> headlessEnv.Some? && Lower(headlessEnv.value) in HeadlessWords
    ensures r == Some(false) <==> headlessEnv.Some? && Lower(headlessEnv.value) in HeadedWords
  {
    if headlessEnv.None? || headlessEnv.value == [] then None
    else
      var lowered := Lower(headlessEnv.value);
      if lowered in HeadlessWords then Some(true)
      else if lowered in HeadedWords then Some(false)
      else None
  }

  /** resolveHeadlessSetting(argv, HEADLESS, CI): the flags first, then a
      recognised HEADLESS, then whether CI is exactly "true". */
  function ResolveHeadlessSetting(args: seq<string>, headlessEnv: Option<string>, ciEnv: Option<string>): (headless: bool)
    ensures "--headed" in args ==> !headless
    ensures "--headed" !in args && "--headless" in args ==> headless
    ensures "--headed" !in args && "--headless" !in args ==>
              headless == (match EnvVerdict(headlessEnv) case Some(b) => b case None => ciEnv == Some("true"))
  {
    if "--headed" in args then false
    else if "--headless" in args then true
    else if headlessEnv.Some? && headlessEnv.value != [] && Lower(headlessEnv.value) in HeadlessWords then true
    else if headlessEnv.Some? && headlessEnv.value != [] && Lower(headlessEnv.value) in HeadedWords then false
    else ciEnv == Some("true")
  }

  /** A command-line flag decides, whatever the environment says. */
  lemma FlagsDominate(args: seq<string>, h1: Option<string>, c1: Option<string>, h2: Option<string>, c2: Option<string>)
    requires "--headed" in args || "--headless" in args
    ensures ResolveHeadlessSetting(args, h1, c1) == ResolveHeadlessSetting(args, h2, c2)
  {
  }

  /** The letter case of HEADLESS does not matter. */
  lemma HeadlessIgnoresCase(args: seq<string>, h: string, ci: Option<string>)
    ensures ResolveHeadlessSetting(args, Some(h), ci) == ResolveHeadlessSetting(args, Some(Lower(h)), ci)
  {
    LowerIdempotent(h);
    assert (Lower(h) == []) == (h == []);
  }

  /** A recognised HEADLESS value makes CI irrelevant. */
  lemma RecognisedEnvIgnoresCi(args: seq<string>, h: Option<string>, c1: Option<string>, c2: Option<string>)
    requires EnvVerdict(h).Some?
    ensures ResolveHeadlessSetting(args, h, c1) == ResolveHeadlessSetting(args, h, c2)
  {
  }

  /** Headed locally, headless in CI: with no flag and no recognised
      HEADLESS, only CI=true turns headless mode on. */
  lemma DefaultFollowsCi(args: seq<string>, h: Option<string>)
    requires "--headed" !in args && "--headless" !in args && EnvVerdict(h).None?
    ensures ResolveHeadlessSetting(args, h, Some("true"))
    ensures !ResolveHeadlessSetting(args, h, None)
    ensures !ResolveHeadlessSetting(args, h, Some("TRUE"))
  {
  }

  /** HEADLESS=Yes and HEADLESS=off: the first is recognised, the second
      falls through to CI. */
  lemma HeadlessExamples()
    ensures ResolveHeadlessSetting([], Some("Yes"), None)
    ensures !ResolveHeadlessSetting([], Some("off"), None)
    ensures ResolveHeadlessSetting([], Some("off"), Some("true"))
    ensures !ResolveHeadlessSetting(["--headed"], Some("1"), Some("true"))
  {
    assert Lower("Yes") == "yes";
    assert Lower("off") == "off";
  }

  // ---------------------------------------------------------------------------
  // buildTicketUrl

  const ServiceNowBase: string := "https://kiskellogg.service-now.com/"

  /** /^https?:\/\//i */
  predicate HasHttpScheme(link: string) {
    IsPrefix("http://", Lower(link)) || IsPrefix("https://", Lower(link))
  }

  /** buildTicketUrl(link): nothing for a missing or empty link, the link
      itself when it is absolute, else new URL(link, ServiceNowBase).href,
      which resolveRelative stands for. */
  function BuildTicketUrl(link: Option<string>, resolveRelative: string -> string): (url: Option<string>)
    ensures url.None? <==> !Truthy(link)
    ensures Truthy(link) && HasHttpScheme(link.value) ==> url == link
    ensures Truthy(link) && !HasHttpScheme(link.value) ==> url == Some(resolveRelative(link.value))
  {
    if !Truthy(link) then None
    else if HasHttpScheme(link.value) then link
    else Some(resolveRelative(link.value))
  }

  lemma LowerPrefix(s: string, n: nat)
    requires n <= |s|
    ensures Lower(s)[..n] == Lower(s[..n])
  {
    LowerSlice(s, 0, n);
    assert s[0..n] == s[..n];
  }

  /** The scheme test ignores letter case. */
  lemma SchemeIgnoresCase(link: string)
    ensures HasHttpScheme(Lower(link)) == HasHttpScheme(link)
  {
    LowerIdempotent(link);
  }

  /** An absolute URL is opened as it stands, in any letter case. */
  lemma AbsoluteLinkUnchanged(link: string, resolveRelative: string -> string)
    requires IsPrefix("HTTPS://", link) || IsPrefix("https://", link) || IsPrefix("http://", link)
    ensures BuildTicketUrl(Some(link), resolveRelative) == Some(link)
  {
    if IsPrefix("http://", link) {
      LowerPrefix(link, 7);
      assert Lower("http://") == "http://";
    } else {
      LowerPrefix(link, 8);
      assert Lower("HTTPS://") == "https://" && Lower("https://") == "https://";
    }
  }

  /** When resolution yields absolute URLs, building is idempotent. */
  lemma BuildTicketUrlIdempotent(link: Option<string>, resolveRelative: string -> string)
    requires forall s :: resolveRelative(s) != [] && HasHttpScheme(resolveRelative(s))
    ensures BuildTicketUrl(BuildTicketUrl(link, resolveRelative), resolveRelative)
         == BuildTicketUrl(link, resolveRelative)
  {
  }

  // ---------------------------------------------------------------------------
  // The outer loop

  /** Why a loop ends: no matching row, an empty target URL, or (in the
      test only) the expectation that the page URL holds "incident.do"
      failed after navigation. */
  /** Why the loop ended. NotTicketPage is the test's failed expectation
      after page.goto(visited) left the page at landed. */
  datatype Exit = NoMatch | MissingUrl | NotTicketPage(visited: string, landed: string)

  datatype Step = Stop(exit: Exit) | Open(url: string)

  /** One pass of the loop: the link of the match logIncidentRows
      returned, and the URL the page shows after page.goto. */
  datatype Pass = Pass(link: Option<string>, landed: string)

  /** The link of a scan result (match?.link). */
  function LinkOfMatch(m: Option<TicketMatch>): (link: Option<string>)
    ensures link.Some? <==> m.Some?
    ensures m.Some? ==> link.value == m.value.link
  {
    if m.Some? then Some(m.value.link) else None
  }

  /** The loop's first break fires exactly when no scanned row matched:
      a match found by the scan always carries a non-empty link. */
  lemma ScanDecidesBreak(rows: seq<Row>, shifts: Option<seq<Shift>>)
    ensures Truthy(LinkOfMatch(FirstMatch(rows, shifts)))
        <==> exists j :: 0 <= j < |rows| && MatchOf(rows[j], shifts).Some?
  {
    FirstMatchIsFirst(rows, shifts);
    var m := FirstMatch(rows, shifts);
    if m.Some? {
      var i :| 0 <= i < |rows| && m == MatchOf(rows[i], shifts);
    }
  }

  /** One iteration: break when the match has no link, break when the
      target URL is empty, and in the test fail unless the page reached
      an incident.do URL; otherwise open the ticket. */
  function LoopStep(v: Variant, p: Pass, resolveRelative: string -> string): (s: Step)
    ensures s.Stop? && s.exit == NoMatch <==> !Truthy(p.link)
    ensures s.Stop? && s.exit == MissingUrl <==>
              Truthy(p.link) && !Truthy(BuildTicketUrl(p.link, resolveRelative))
    ensures s.Open? ==> Some(s.url) == BuildTicketUrl(p.link, resolveRelative) && s.url != []
    ensures s.Open? && v == PlaywrightTest ==> Includes(p.landed, "incident.do")
    ensures Truthy(BuildTicketUrl(p.link, resolveRelative)) && (v == Runner || Includes(p.landed, "incident.do")) ==>
              s == Open(BuildTicketUrl(p.link, resolveRelative).value)
    ensures s.Stop? && s.exit.NotTicketPage? ==>
              v == PlaywrightTest && Some(s.exit.visited) == BuildTicketUrl(p.link, resolveRelative)
              && s.exit.landed == p.landed && !Includes(p.landed, "incident.do")
    ensures v == Runner ==> !(s.Stop? && s.exit.NotTicketPage?)
  {
    if !Truthy(p.link) then Stop(NoMatch)
    else
      var targetUrl := BuildTicketUrl(p.link, resolveRelative);
      if !Truthy(targetUrl) then Stop(MissingUrl)
      else if v == PlaywrightTest && !Includes(p.landed, "incident.do") then Stop(NotTicketPage(targetUrl.value, p.landed))
      else Open(targetUrl.value)
  }

  /** The URLs opened and how the loop ended; exit is None when the
      passes ran out with the loop still going. */
  datatype Run = Run(urls: seq<string>, exit: Option<Exit>)

  /** while (true) { ... } over the passes the page produces. */
  function RunLoop(v: Variant, passes: seq<Pass>, resolveRelative: string -> string): (r: Run)
    ensures |r.urls| <= |passes|
    ensures r.exit.None? <==> |r.urls| == |passes|
    ensures forall k :: 0 <= k < |r.urls| ==> LoopStep(v, passes[k], resolveRelative) == Open(r.urls[k])
    ensures r.exit.Some? ==> LoopStep(v, passes[|r.urls|], resolveRelative) == Stop(r.exit.value)
  {
    hide LoopStep;
    if passes == [] then Run([], None)
    else
      match LoopStep(v, passes[0], resolveRelative)
      case Stop(e) => Run([], Some(e))
      case Open(u) =>
        var rest := RunLoop(v, passes[1..], resolveRelative);
        Run([u] + rest.urls, rest.exit)
  }

  /** The loop stops exactly when some pass stops it, at the first such
      pass. */
  lemma RunLoopStopsAtFirstStop(v: Variant, passes: seq<Pass>, resolveRelative: string -> string)
    ensures RunLoop(v, passes, resolveRelative).exit.Some?
        <==> exists k :: 0 <= k < |passes| && LoopStep(v, passes[k], resolveRelative).Stop?
  {
    var r := RunLoop(v, passes, resolveRelative);
    if r.exit.None? {
      forall k | 0 <= k < |passes|
        ensures LoopStep(v, passes[k], resolveRelative).Open?
      {
        assert LoopStep(v, passes[k], resolveRelative) == Open(r.urls[k]);
      }
    }
  }

  /** When URL resolution never yields an empty string, the loop only ends
      for want of a match (or, in the test, on a failed expectation). */
  lemma NoMissingUrl(v: Variant, passes: seq<Pass>, resolveRelative: string -> string)
    requires forall s :: resolveRelative(s) != []
    ensures RunLoop(v, passes, resolveRelative).exit != Some(MissingUrl)
  {
  }

  /** When every pass finds a linked match and resolution never yields an
      empty string, the runner opens a ticket on every pass, each at the
      URL built from that pass's link: it has no page-URL check to fail. */
  lemma RunnerOpensEveryLinkedMatch(passes: seq<Pass>, resolveRelative: string -> string)
    requires forall s :: resolveRelative(s) != []
    requires forall k :: 0 <= k < |passes| ==> Truthy(passes[k].link)
    ensures RunLoop(Runner, passes, resolveRelative).exit.None?
    ensures |RunLoop(Runner, passes, resolveRelative).urls| == |passes|
    ensures forall k :: 0 <= k < |passes| ==>
              Some(RunLoop(Runner, passes, resolveRelative).urls[k]) == BuildTicketUrl(passes[k].link, resolveRelative)
  {
    var r := RunLoop(Runner, passes, resolveRelative);
    if r.exit.Some? {
      var p := passes[|r.urls|];
      assert Truthy(BuildTicketUrl(p.link, resolveRelative));
    }
  }
}
