/** resolveIncidentFrame: poll the page's frames until one is recognised
    as the incident-list (or ticket-form) frame, or give up after a minute.
    A round tries three things in order: a pass over the frames by name,
    a pass over the frames by URL, and the content frame of the embedded
    gsft_main element. The two copies of the function differ only in the
    tests the two passes apply when no caller predicate is given. */
module FrameResolver {
  import opened Text

  /** timeoutMs and pollInterval. */
  const TimeoutMs: nat := 60000
  const PollIntervalMs: nat := 500

  /** The most rounds the deadline admits: each round waits at least
      PollIntervalMs. */
  const MaxRounds: nat := 120

  /** A frame of the page, by its name() and url(). */
  datatype Frame = Frame(name: string, url: string)

  /** The outcome of one call of a caller-supplied predicate. */
  datatype Outcome = Returned(b: bool) | Threw

  /** options.match: absent, or the caller's predicate. */
  datatype Matcher = DefaultMatcher | CustomMatcher(test: Frame -> Outcome)

  /** The standalone runner (tests/run-close-tickets.js) or the Playwright
      test (tests/close-tickets.spec.js). */
  datatype Variant = Runner | PlaywrightTest

  /** What one round sees: page.frames(), and the content frame behind the
      first element matching the gsft_main selector (None when there is
      no such element or its contentFrame() is null). */
  datatype Observation = Observation(frames: seq<Frame>, embedded: Option<Frame>)

  /** One round of the page as time passes: what it shows, and the time
      the round spends besides its PollIntervalMs wait. */
  datatype Round = Round(obs: Observation, extraMs: nat)

  /** The frame and the round (from 0) that found it, or the thrown
      "Unable to locate ServiceNow incident list frame". */
  datatype Resolution = Found(frame: Frame, round: nat) | NotFound

  /** A predicate call inside try/catch: a throw counts as no. */
  predicate Accepts(o: Outcome) {
    o == Returned(true)
  }

  /** The path the default URL pass looks for. */
  function ListPath(v: Variant): string {
    match v
    case Runner => "/incident_list.do"
    case PlaywrightTest => "incident_list.do"
  }

  /** The test of the first pass. */
  predicate NameTest(v: Variant, m: Matcher, f: Frame) {
    match m
    case CustomMatcher(test) => Accepts(test(f))
    case DefaultMatcher =>
      match v
      case Runner => f.name == "gsft_main" || f.name == "gsft_nav"
      case PlaywrightTest => f.name == "gsft_main"
  }

  /** The test of the second pass: a frame with a non-empty name whose URL
      holds the list path. */
  predicate UrlTest(v: Variant, m: Matcher, f: Frame) {
    match m
    case CustomMatcher(test) => Accepts(test(f))
    case DefaultMatcher => f.name != [] && Includes(f.url, ListPath(v))
  }

  /** The first frame passing the test, if any. */
  function FindFrame(frames: seq<Frame>, p: Frame -> bool): (r: Option<Frame>)
    ensures r.None? <==> forall j :: 0 <= j < |frames| ==> !p(frames[j])
    ensures r.Some? ==> exists k :: 0 <= k < |frames| && frames[k] == r.value && p(frames[k])
                          && forall j :: 0 <= j < k ==> !p(frames[j])
  {
    match FirstWhere(frames, p)
    case None => None
    case Some(k) => Some(frames[k])
  }

  /** One round: the name pass, then the URL pass, then the embedded
      element's content frame. */
  function PollOnce(v: Variant, m: Matcher, obs: Observation): (r: Option<Frame>)
    ensures r.None? <==> (forall j :: 0 <= j < |obs.frames| ==>
                            !NameTest(v, m, obs.frames[j]) && !UrlTest(v, m, obs.frames[j]))
                         && obs.embedded.None?
    ensures (exists j :: 0 <= j < |obs.frames| && NameTest(v, m, obs.frames[j])) ==>
              r == FindFrame(obs.frames, f => NameTest(v, m, f))
    ensures (forall j :: 0 <= j < |obs.frames| ==> !NameTest(v, m, obs.frames[j]))
            && (exists j :: 0 <= j < |obs.frames| && UrlTest(v, m, obs.frames[j])) ==>
              r == FindFrame(obs.frames, f => UrlTest(v, m, f))
    ensures (forall j :: 0 <= j < |obs.frames| ==>
               !NameTest(v, m, obs.frames[j]) && !UrlTest(v, m, obs.frames[j])) ==>
              r == obs.embedded
    ensures r.Some? ==> r.value in obs.frames || Some(r.value) == obs.embedded
  {
    var byName := FindFrame(obs.frames, f => NameTest(v, m, f));
    if byName.Some? then byName
    else
      var byUrl := FindFrame(obs.frames, f => UrlTest(v, m, f));
      if byUrl.Some? then byUrl else obs.embedded
  }

  /** Date.now() at the deadline check of round k, measured from the
      start of the call. */
  function StartTime(env: nat -> Round, k: nat): (t: nat)
    ensures t >= 500 * k
  {
    if k == 0 then 0 else StartTime(env, k - 1) + PollIntervalMs + env(k - 1).extraMs
  }

  /** What each round's pass over the page finds. */
  function RoundResults(v: Variant, m: Matcher, env: nat -> Round): nat -> Option<Frame> {
    (j: nat) => PollOnce(v, m, env(j).obs)
  }

  /** Rounds from k on, while the deadline has not passed; found(j) is
      what round j finds. */
  function Poll(found: nat -> Option<Frame>, env: nat -> Round, k: nat): (r: Resolution)
    decreases MaxRounds - k
    ensures r.Found? ==> k <= r.round < MaxRounds && StartTime(env, r.round) < TimeoutMs
                         && found(r.round) == Some(r.frame)
    ensures r.Found? ==> forall j :: k <= j < r.round ==> found(j).None?
    ensures r.NotFound? ==> forall j :: k <= j && StartTime(env, j) < TimeoutMs ==> found(j).None?
  {
    if StartTime(env, k) >= TimeoutMs then
      StartTimeMonotone(env, k);
      NotFound
    else
      match found(k)
      case Some(f) => Found(f, k)
      case None => Poll(found, env, k + 1)
  }

  /** resolveIncidentFrame(page, options). */
  function Resolve(v: Variant, m: Matcher, env: nat -> Round): (r: Resolution)
    ensures r.Found? ==> r.round < MaxRounds && StartTime(env, r.round) < TimeoutMs
                         && PollOnce(v, m, env(r.round).obs) == Some(r.frame)
    ensures r.Found? ==> forall j :: 0 <= j < r.round ==> PollOnce(v, m, env(j).obs).None?
    ensures r.NotFound? <==> forall j :: StartTime(env, j) < TimeoutMs ==> PollOnce(v, m, env(j).obs).None?
  {
    RoundResultsAre(v, m, env);
    Poll(RoundResults(v, m, env), env, 0)
  }

  lemma RoundResultsAre(v: Variant, m: Matcher, env: nat -> Round)
    ensures forall j: nat :: RoundResults(v, m, env)(j) == PollOnce(v, m, env(j).obs)
  {
  }

  // ---------------------------------------------------------------------------
  // Properties

  lemma {:induction false} StartTimeMonotone(env: nat -> Round, k: nat)
    ensures forall j :: k <= j ==> StartTime(env, k) <= StartTime(env, j)
  {
    forall j | k <= j
      ensures StartTime(env, k) <= StartTime(env, j)
    {
      StartTimeStep(env, k, j);
    }
  }

  lemma {:induction false} StartTimeStep(env: nat -> Round, k: nat, j: nat)
    requires k <= j
    ensures StartTime(env, k) <= StartTime(env, j)
    decreases j - k
  {
    if k < j {
      StartTimeStep(env, k, j - 1);
    }
  }

  /** Without time spent besides the waits, exactly 120 rounds run before
      the call throws. */
  lemma {:induction false} ZeroOverheadStart(env: nat -> Round, k: nat)
    requires forall j :: 0 <= j < k ==> env(j).extraMs == 0
    ensures StartTime(env, k) == PollIntervalMs * k
  {
    if k > 0 {
      ZeroOverheadStart(env, k - 1);
    }
  }

  lemma ZeroOverheadRounds(v: Variant, m: Matcher, env: nat -> Round)
    requires forall j :: 0 <= j < MaxRounds ==> env(j).extraMs == 0
    ensures Resolve(v, m, env).NotFound?
        <==> forall j :: 0 <= j < MaxRounds ==> PollOnce(v, m, env(j).obs).None?
  {
    forall j | 0 <= j < MaxRounds
      ensures StartTime(env, j) < TimeoutMs
    {
      ZeroOverheadStart(env, j);
    }
  }

  /** A frame visible in the first round is taken at once. */
  lemma FirstRoundWins(v: Variant, m: Matcher, env: nat -> Round)
    requires PollOnce(v, m, env(0).obs).Some?
    ensures Resolve(v, m, env) == Found(PollOnce(v, m, env(0).obs).value, 0)
  {
  }

  /** The name pass has priority: when some frame passes it, the first such
      frame is taken, whatever the URLs and the embedded element. */
  lemma NamePassWins(v: Variant, m: Matcher, obs: Observation, k: nat)
    requires k < |obs.frames| && NameTest(v, m, obs.frames[k])
    requires forall j :: 0 <= j < k ==> !NameTest(v, m, obs.frames[j])
    ensures PollOnce(v, m, obs) == Some(obs.frames[k])
  {
  }

  /** With a caller predicate both passes apply it, so the second one
      never finds what the first one missed: the result is the first frame
      the predicate accepts, else the embedded frame. */
  lemma CustomMatcherOnePass(v: Variant, test: Frame -> Outcome, obs: Observation)
    ensures PollOnce(v, CustomMatcher(test), obs)
         == match FindFrame(obs.frames, f => Accepts(test(f)))
            case Some(f) => Some(f)
            case None => obs.embedded
  {
    var m := CustomMatcher(test);
    FirstWhereSame(obs.frames, f => NameTest(v, m, f), f => Accepts(test(f)));
    FirstWhereSame(obs.frames, f => UrlTest(v, m, f), f => Accepts(test(f)));
  }

  /** Without a caller predicate the runner's passes accept every frame
      the test's passes accept: gsft_nav is an extra name, and a URL
      holding "/incident_list.do" holds "incident_list.do". */
  lemma RunnerNamesWider(f: Frame)
    ensures NameTest(PlaywrightTest, DefaultMatcher, f) ==> NameTest(Runner, DefaultMatcher, f)
  {
  }

  lemma RunnerUrlsNarrower(f: Frame)
    ensures UrlTest(Runner, DefaultMatcher, f) ==> UrlTest(PlaywrightTest, DefaultMatcher, f)
  {
    if UrlTest(Runner, DefaultMatcher, f) {
      var i: nat :| OccursAt(f.url, "/incident_list.do", i);
      assert f.url[i + 1..i + 17] == f.url[i..i + 17][1..];
      assert OccursAt(f.url, "incident_list.do", i + 1);
    }
  }

  /** A frame named gsft_main is found by the name pass of either copy. */
  lemma MainFrameFoundByBoth(v: Variant, obs: Observation, k: nat)
    requires k < |obs.frames| && obs.frames[k].name == "gsft_main"
    ensures PollOnce(v, DefaultMatcher, obs).Some?
    ensures PollOnce(v, DefaultMatcher, obs).value in obs.frames
  {
    assert NameTest(v, DefaultMatcher, obs.frames[k]);
  }

  /** The copies disagree on a page whose navigation frame comes first: the
      runner takes gsft_nav, the test takes gsft_main. */
  const NavFrame: Frame := Frame("gsft_nav", "https://kiskellogg.service-now.com/nav.do")
  const ListFrame: Frame := Frame("gsft_main", "https://kiskellogg.service-now.com/incident_list.do")

  lemma NavigationFrameExample()
    ensures PollOnce(Runner, DefaultMatcher, Observation([NavFrame, ListFrame], None)) == Some(NavFrame)
    ensures PollOnce(PlaywrightTest, DefaultMatcher, Observation([NavFrame, ListFrame], None)) == Some(ListFrame)
  {
    var obs := Observation([NavFrame, ListFrame], None);
    NamePassWins(Runner, DefaultMatcher, obs, 0);
    assert !NameTest(PlaywrightTest, DefaultMatcher, NavFrame);
    NamePassWins(PlaywrightTest, DefaultMatcher, obs, 1);
  }

  /** The predicate the ticket-form step passes in: the frame named
      gsft_main, or one whose URL holds "incident.do". */
  const FormMatcher: Matcher :=
    CustomMatcher((f: Frame) => Returned(f.name == "gsft_main" || Includes(f.url, "incident.do")))

  const FormFrame: Frame := Frame("", "https://kiskellogg.service-now.com/incident.do?sys_id=1")

  /** With the form predicate an unnamed frame showing a ticket is taken;
      the default tests of either copy pass it over. */
  lemma FormMatcherExample(v: Variant)
    ensures PollOnce(v, FormMatcher, Observation([FormFrame], None)) == Some(FormFrame)
    ensures PollOnce(v, DefaultMatcher, Observation([FormFrame], None)) == None
  {
    var obs := Observation([FormFrame], None);
    assert OccursAt(FormFrame.url, "incident.do", 35);
    NamePassWins(v, FormMatcher, obs, 0);
    UnnamedFrameNeedsEmbedding(v, obs);
  }

  /** A frame without a name is never taken by the default URL pass, even
      when its URL is the list's. */
  lemma UnnamedFrameNeedsEmbedding(v: Variant, obs: Observation)
    requires forall j :: 0 <= j < |obs.frames| ==> obs.frames[j].name == []
    ensures PollOnce(v, DefaultMatcher, obs) == obs.embedded
  {
    assert forall j :: 0 <= j < |obs.frames| ==> !NameTest(v, DefaultMatcher, obs.frames[j]);
    assert forall j :: 0 <= j < |obs.frames| ==> !UrlTest(v, DefaultMatcher, obs.frames[j]);
  }
}
