/**
 The page as a whole after load: the fragment bootstrap, then any sequence of nav clicks
 and (debounced) searches. This is where the activation invariant is shown to survive
 every transition the script can make.
 */
module Site {
  import opened Navigation
  import opened Search
  import opened Debounce

  /** The quiet interval of the search box: `debounce(doSearch, 200)`. */
  const SearchWait: nat := 200

  /** What can change the page once it is loaded: a click on nav item `nav`, a
      debounced search firing while the input holds `query`, or the delayed highlight
      clearing that follows the search box losing focus. */
  datatype Event = NavClick(nav: nat) | SearchFired(query: string) | BlurCleared

  /** The event refers to an existing nav item, for a page with `navCount` of them. */
  predicate ValidEvent(navCount: nat, e: Event) {
    e.NavClick? ==> e.nav < navCount
  }

  /** Every event of `events` is valid. */
  predicate ValidEvents(navCount: nat, events: seq<Event>) {
    forall i :: 0 <= i < |events| ==> ValidEvent(navCount, events[i])
  }

  /** Dropping the first event keeps the rest valid. */
  lemma ValidEventsTail(navCount: nat, events: seq<Event>)
    requires ValidEvents(navCount, events) && |events| > 0
    ensures ValidEvent(navCount, events[0]) && ValidEvents(navCount, events[1..])
  {
    forall i | 0 <= i < |events[1..]| ensures ValidEvent(navCount, events[1..][i]) {
      assert events[1..][i] == events[i + 1];
    }
  }

  /** The page after one event. The search box handlers are wired only when the page
      has sections. */
  function Step(p: Page, e: Event): (r: Page)
    requires p.WellFormed() && ValidEvent(|p.navs|, e)
    ensures r.WellFormed() && r.sections == p.sections && r.navs == p.navs
    ensures e.NavClick? ==> r.highlighted == p.highlighted
    ensures !e.NavClick? && |p.sections| == 0 ==> r == p
    ensures e.BlurCleared? ==> r.navActive == p.navActive && r.sectionActive == p.sectionActive
    ensures e.BlurCleared? && |p.sections| > 0 ==> forall k :: 0 <= k < |p.navs| ==> !r.highlighted[k]
  {
    match e
    case NavClick(k) => Click(p, k)
    case SearchFired(q) => if |p.sections| == 0 then p else DoSearch(p, q)
    case BlurCleared => if |p.sections| == 0 then p else ClearHighlights(p)
  }

  /** With unique section ids, every event keeps the activation state consistent. */
  lemma StepConsistent(p: Page, e: Event)
    requires Consistent(p) && UniqueIds(p.sections) && ValidEvent(|p.navs|, e)
    ensures Consistent(Step(p, e))
  {
    match e
    case NavClick(k) => ClickConsistent(p, k);
    case SearchFired(q) => if |p.sections| > 0 { SearchConsistent(p, q); }
    case BlurCleared =>
  }

  /** The page after a sequence of events, applied in order. */
  function Replay(p: Page, events: seq<Event>): (r: Page)
    requires p.WellFormed()
    requires ValidEvents(|p.navs|, events)
    ensures r.WellFormed() && r.sections == p.sections && r.navs == p.navs
    decreases |events|
  {
    if |events| == 0 then p
    else
      ValidEventsTail(|p.navs|, events);
      Replay(Step(p, events[0]), events[1..])
  }

  /** Replaying a single event is taking one step. */
  lemma ReplayOne(p: Page, e: Event)
    requires p.WellFormed() && ValidEvent(|p.navs|, e)
    ensures ValidEvents(|p.navs|, [e])
    ensures Replay(p, [e]) == Step(p, e)
  {
    assert [e][1..] == [];
  }

  /** With unique section ids, a page loaded in a consistent state (and bootstrapped from
      any fragment) stays consistent through any sequence of clicks and searches: at most
      one section and one nav item are active, and an active pair names the same section. */
  lemma {:induction false} ReplayConsistent(p: Page, events: seq<Event>)
    requires Consistent(p) && UniqueIds(p.sections)
    requires ValidEvents(|p.navs|, events)
    ensures Consistent(Replay(p, events))
    decreases |events|
  {
    if |events| > 0 {
      ValidEventsTail(|p.navs|, events);
      StepConsistent(p, events[0]);
      ReplayConsistent(Step(p, events[0]), events[1..]);
    }
  }

  /** The whole session: fragment bootstrap at load, then the events. */
  lemma SessionConsistent(p: Page, hash: string, events: seq<Event>)
    requires Consistent(p) && UniqueIds(p.sections)
    requires ValidEvents(|p.navs|, events)
    ensures Consistent(Replay(Bootstrap(p, hash), events))
  {
    BootstrapConsistent(p, hash);
    ReplayConsistent(Bootstrap(p, hash), events);
  }

  /** The searches the timer fires, as events, in order. */
  function FiredSearches(runs: seq<Run<string>>): (r: seq<Event>)
    ensures |r| == |runs|
    ensures forall i :: 0 <= i < |r| ==> r[i] == SearchFired(runs[i].arg)
  {
    seq(|runs|, i requires 0 <= i < |runs| => SearchFired(runs[i].arg))
  }

  /** Typing into the search box: each input event calls the debounced `doSearch`, and
      each run of it searches for the value the box holds then (the value of the
      call that scheduled it, since no later input came before it ran). */
  function Typing(p: Page, inputs: seq<Invocation<string>>): (r: Page)
    requires p.WellFormed()
    ensures r.WellFormed() && r.sections == p.sections && r.navs == p.navs
    ensures |inputs| == 0 ==> r == p
  {
    Replay(p, FiredSearches(Simulate(Idle(), inputs, SearchWait)))
  }

  /** A burst of keystrokes less than 200 time units apart fires one search event, for
      the final value of the box, 200 after the last keystroke. */
  lemma BurstFiresOneSearch(inputs: seq<Invocation<string>>)
    requires |inputs| > 0
    requires forall k :: 0 <= k < |inputs| - 1 ==> inputs[k + 1].time < inputs[k].time + SearchWait
    ensures Simulate(Idle(), inputs, SearchWait)
         == [Run(inputs[|inputs| - 1].time + SearchWait, inputs[|inputs| - 1].arg)]
    ensures FiredSearches(Simulate(Idle(), inputs, SearchWait)) == [SearchFired(inputs[|inputs| - 1].arg)]
  {
    BurstRunsOnce(inputs, SearchWait);
  }

  /** Such a burst leaves the page as one search for the final value would. */
  lemma TypingBurstSearchesOnce(p: Page, inputs: seq<Invocation<string>>)
    requires p.WellFormed() && |inputs| > 0
    requires forall k :: 0 <= k < |inputs| - 1 ==> inputs[k + 1].time < inputs[k].time + SearchWait
    ensures Typing(p, inputs) == Step(p, SearchFired(inputs[|inputs| - 1].arg))
  {
    BurstFiresOneSearch(inputs);
    ReplayOne(p, SearchFired(inputs[|inputs| - 1].arg));
  }

  /** "a", "ab", "abc" typed 50 apart: one search, for "abc", at 300. */
  lemma TypingExample(p: Page)
    requires p.WellFormed()
    ensures var inputs := [Invocation(0, "a"), Invocation(50, "ab"), Invocation(100, "abc")];
      && Simulate(Idle(), inputs, SearchWait) == [Run(300, "abc")]
      && Typing(p, inputs) == Step(p, SearchFired("abc"))
  {
    var inputs := [Invocation(0, "a"), Invocation(50, "ab"), Invocation(100, "abc")];
    BurstFiresOneSearch(inputs);
    TypingBurstSearchesOnce(p, inputs);
  }
}
