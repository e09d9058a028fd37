/**
 In-page search (`doSearch` in `initSearch`): normalise the query, find the sections
 whose lower-cased text contains it, highlight their nav items, and activate the first
 match. The activation is written out inline and marks the matched section by position,
 not through `activateSection`.
 */
module Search {
  import opened Wrappers
  import opened Text
  import opened Navigation

  /** The search term: `input.value.trim().toLowerCase()`. It is empty, and the search
      stops, exactly when the query is all whitespace. */
  function Term(query: string): (r: string)
    ensures |r| <= |query|
    ensures r == "" <==> forall i :: 0 <= i < |query| ==> IsWhitespace(query[i])
  {
    TrimEmptyIff(query);
    ToLower(Trim(query))
  }

  /** A query with no surrounding whitespace and no upper-case letter is its own term. */
  lemma TermFixed(query: string)
    requires |query| > 0 ==> !IsWhitespace(query[0]) && !IsWhitespace(query[|query| - 1])
    requires forall i :: 0 <= i < |query| ==> !('A' <= query[i] <= 'Z')
    ensures Term(query) == query
  {
    TrimFixed(query);
    LowerFixed(query);
  }

  /** `section.textContent.toLowerCase().includes(term)`. */
  predicate SectionMatches(s: Section, term: string) {
    Includes(ToLower(s.text), term)
  }

  /** The matching sections' positions, in document order. */
  function Matches(sections: seq<Section>, term: string): (r: seq<nat>)
    ensures forall m :: 0 <= m < |r| ==> r[m] < |sections| && SectionMatches(sections[r[m]], term)
    ensures forall j :: 0 <= j < |sections| && SectionMatches(sections[j], term) ==> j in r
    ensures forall m, n :: 0 <= m < n < |r| ==> r[m] < r[n]
    decreases |sections|
  {
    if |sections| == 0 then
      []
    else
      var last := |sections| - 1;
      var prev := Matches(sections[..last], term);
      if SectionMatches(sections[last], term) then prev + [last] else prev
  }

  /** The first matching section, if any. */
  function FirstMatch(sections: seq<Section>, term: string): (r: Option<nat>)
    ensures r.Some? ==> r.value < |sections| && SectionMatches(sections[r.value], term)
    ensures r.Some? ==> forall j :: 0 <= j < r.value ==> !SectionMatches(sections[j], term)
    ensures r.None? <==> forall j :: 0 <= j < |sections| ==> !SectionMatches(sections[j], term)
    decreases |sections|
  {
    if |sections| == 0 then
      None
    else if SectionMatches(sections[0], term) then
      Some(0)
    else
      match FirstMatch(sections[1..], term)
      case None => None
      case Some(j) => Some(j + 1)
  }

  /** The head of the match list is the first match. */
  lemma MatchesHead(sections: seq<Section>, term: string)
    ensures |Matches(sections, term)| > 0 <==> FirstMatch(sections, term).Some?
    ensures |Matches(sections, term)| > 0 ==> Matches(sections, term)[0] == FirstMatch(sections, term).value
  {
    var ms := Matches(sections, term);
    if FirstMatch(sections, term).Some? {
      var f := FirstMatch(sections, term).value;
      assert f in ms;
    }
  }

  /** Nav item `k` is the one `FindNav` picks for some section listed in `ms`. */
  ghost predicate MarkedBy(navs: seq<NavItem>, sections: seq<Section>, ms: seq<nat>, k: nat)
    requires forall m :: 0 <= m < |ms| ==> ms[m] < |sections|
  {
    exists m :: 0 <= m < |ms| && FindNav(navs, sections[ms[m]].id) == Some(k)
  }

  /** Marked by a list is marked by its head or by its tail. */
  lemma MarkedBySplit(navs: seq<NavItem>, sections: seq<Section>, ms: seq<nat>, k: nat)
    requires |ms| > 0 && forall m :: 0 <= m < |ms| ==> ms[m] < |sections|
    ensures MarkedBy(navs, sections, ms, k) <==>
      FindNav(navs, sections[ms[0]].id) == Some(k) || MarkedBy(navs, sections, ms[1..], k)
  {
    if MarkedBy(navs, sections, ms[1..], k) {
      var m :| 0 <= m < |ms[1..]| && FindNav(navs, sections[ms[1..][m]].id) == Some(k);
      assert ms[1..][m] == ms[m + 1];
    }
    if MarkedBy(navs, sections, ms, k) {
      var m :| 0 <= m < |ms| && FindNav(navs, sections[ms[m]].id) == Some(k);
      if m > 0 {
        assert ms[1..][m - 1] == ms[m];
      }
    }
  }

  /** The highlight loop: for each match in turn, the first nav item targeting its id
      (if any) gets the highlight, on top of the flags `hl` it starts from. */
  function MarkMatches(hl: seq<bool>, navs: seq<NavItem>, sections: seq<Section>, ms: seq<nat>): (r: seq<bool>)
    requires |hl| == |navs|
    requires forall m :: 0 <= m < |ms| ==> ms[m] < |sections|
    ensures |r| == |hl|
    ensures forall k :: 0 <= k < |r| ==> (r[k] <==> hl[k] || MarkedBy(navs, sections, ms, k))
    decreases |ms|
  {
    if |ms| == 0 then
      hl
    else
      var h := match FindNav(navs, sections[ms[0]].id)
        case Some(k) => hl[k := true]
        case None => hl;
      var r := MarkMatches(h, navs, sections, ms[1..]);
      forall k | 0 <= k < |r|
        ensures r[k] <==> hl[k] || MarkedBy(navs, sections, ms, k)
      {
        MarkedBySplit(navs, sections, ms, k);
      }
      r
  }

  /** No flag set. */
  function AllClear(n: nat): (r: seq<bool>)
    ensures |r| == n && forall k :: 0 <= k < n ==> !r[k]
  {
    seq(n, _ => false)
  }

  /** `clearHighlights`: every nav item loses its search highlight; nothing else changes. */
  function ClearHighlights(p: Page): (r: Page)
    requires p.WellFormed()
    ensures r.WellFormed() && SameButHighlight(p, r)
    ensures forall k :: 0 <= k < |r.navs| ==> !r.highlighted[k]
  {
    p.(highlighted := AllClear(|p.navs|))
  }

  /** Two pages that differ at most in their highlights. */
  predicate SameButHighlight(p: Page, q: Page) {
    && q.sections == p.sections && q.navs == p.navs
    && q.sectionActive == p.sectionActive && q.navActive == p.navActive
  }

  /** The highlight loop of a non-empty search, on top of the flags `hl`: nav item `k` is
      lit exactly when it already was or it is the nav item `FindNav` picks for some
      matching section. */
  function Highlights(hl: seq<bool>, navs: seq<NavItem>, sections: seq<Section>, term: string): (r: seq<bool>)
    requires |hl| == |navs|
    ensures |r| == |navs|
    ensures forall k :: 0 <= k < |navs| ==>
      (r[k] <==> hl[k] || exists j :: 0 <= j < |sections| && SectionMatches(sections[j], term)
                                      && FindNav(navs, sections[j].id) == Some(k))
  {
    var ms := Matches(sections, term);
    var r := MarkMatches(hl, navs, sections, ms);
    forall k | 0 <= k < |navs|
      ensures r[k] <==> hl[k] || exists j :: 0 <= j < |sections| && SectionMatches(sections[j], term)
                                             && FindNav(navs, sections[j].id) == Some(k)
    {
      if exists j :: 0 <= j < |sections| && SectionMatches(sections[j], term)
                     && FindNav(navs, sections[j].id) == Some(k) {
        var j :| 0 <= j < |sections| && SectionMatches(sections[j], term)
                 && FindNav(navs, sections[j].id) == Some(k);
        var m :| 0 <= m < |ms| && ms[m] == j;
        assert MarkedBy(navs, sections, ms, k);
      }
      if MarkedBy(navs, sections, ms, k) {
        var m :| 0 <= m < |ms| && FindNav(navs, sections[ms[m]].id) == Some(k);
        assert SectionMatches(sections[ms[m]], term);
      }
    }
    r
  }

  /** The inline activation of the first match `f`: every nav item and section loses
      `active`, then the nav item found for `f`'s id (if any) and section `f` itself gain it. */
  function ActivateMatch(p: Page, f: nat): (r: Page)
    requires p.WellFormed() && f < |p.sections|
    ensures r.WellFormed() && SameButActive(p, r)
    ensures forall j :: 0 <= j < |p.sections| ==> (r.sectionActive[j] <==> j == f)
    ensures forall k :: 0 <= k < |p.navs| ==> (r.navActive[k] <==> FindNav(p.navs, p.sections[f].id) == Some(k))
  {
    p.(navActive := match FindNav(p.navs, p.sections[f].id)
         case Some(k) => AllClear(|p.navs|)[k := true]
         case None => AllClear(|p.navs|),
       sectionActive := AllClear(|p.sections|)[f := true])
  }

  /** The part of `doSearch` after the empty-term check: every matching section's nav
      item is highlighted, on top of the highlights the page already has, and if there is
      a first match with a non-empty id, only that section is active and only its nav
      item (if one exists) is active. `matches[0]` is taken as `FirstMatch`, which
      `MatchesHead` shows to be the same section. */
  function SearchFor(p: Page, term: string): (r: Page)
    requires p.WellFormed()
    ensures r.WellFormed() && r.sections == p.sections && r.navs == p.navs
    ensures forall k :: 0 <= k < |p.navs| ==>
      (r.highlighted[k] <==> p.highlighted[k] || exists j :: 0 <= j < |p.sections| && SectionMatches(p.sections[j], term)
                                                             && FindNav(p.navs, p.sections[j].id) == Some(k))
    ensures FirstMatch(p.sections, term).None? ==>
      r.navActive == p.navActive && r.sectionActive == p.sectionActive
    ensures FirstMatch(p.sections, term).Some? ==>
      var f := FirstMatch(p.sections, term).value;
      if p.sections[f].id == "" then
        r.navActive == p.navActive && r.sectionActive == p.sectionActive
      else
        && (forall j :: 0 <= j < |p.sections| ==> (r.sectionActive[j] <==> j == f))
        && (forall k :: 0 <= k < |p.navs| ==> (r.navActive[k] <==> FindNav(p.navs, p.sections[f].id) == Some(k)))
  {
    var marked := p.(highlighted := Highlights(p.highlighted, p.navs, p.sections, term));
    match FirstMatch(p.sections, term)
    case None => marked
    case Some(f) => if p.sections[f].id == "" then marked else ActivateMatch(marked, f)
  }

  /** `doSearch` run with the input field holding `query`. Highlights are cleared first;
      an empty term stops there and leaves the active flags alone. Otherwise the search
      proceeds as `SearchFor` states. */
  function DoSearch(p: Page, query: string): (r: Page)
    requires p.WellFormed()
    ensures r.WellFormed() && r.sections == p.sections && r.navs == p.navs
    ensures Term(query) == "" ==>
      && (forall k :: 0 <= k < |p.navs| ==> !r.highlighted[k])
      && r.navActive == p.navActive && r.sectionActive == p.sectionActive
    ensures Term(query) != "" ==> forall k :: 0 <= k < |p.navs| ==>
      (r.highlighted[k] <==> exists j :: 0 <= j < |p.sections| && SectionMatches(p.sections[j], Term(query))
                                           && FindNav(p.navs, p.sections[j].id) == Some(k))
    ensures Term(query) != "" && FirstMatch(p.sections, Term(query)).None? ==>
      r.navActive == p.navActive && r.sectionActive == p.sectionActive
    ensures Term(query) != "" && FirstMatch(p.sections, Term(query)).Some? ==>
      var f := FirstMatch(p.sections, Term(query)).value;
      if p.sections[f].id == "" then
        r.navActive == p.navActive && r.sectionActive == p.sectionActive
      else
        && (forall j :: 0 <= j < |p.sections| ==> (r.sectionActive[j] <==> j == f))
        && (forall k :: 0 <= k < |p.navs| ==> (r.navActive[k] <==> FindNav(p.navs, p.sections[f].id) == Some(k)))
  {
    var term := Term(query);
    var cleared := ClearHighlights(p);
    if term == "" then cleared else SearchFor(cleared, term)
  }

  /** Another view of the highlight: nav item `k` is highlighted after a non-empty search
      exactly when it is the first nav item carrying its `data-section` and some matching
      section has that id. */
  lemma HighlightedIff(p: Page, query: string, k: nat)
    requires p.WellFormed() && k < |p.navs| && Term(query) != ""
    ensures DoSearch(p, query).highlighted[k] <==>
      && (forall k' :: 0 <= k' < k ==> p.navs[k'].dataSection != p.navs[k].dataSection)
      && exists j :: 0 <= j < |p.sections| && SectionMatches(p.sections[j], Term(query))
                     && p.sections[j].id == p.navs[k].dataSection
  {
    var term := Term(query);
    var first := forall k' :: 0 <= k' < k ==> p.navs[k'].dataSection != p.navs[k].dataSection;
    if DoSearch(p, query).highlighted[k] {
      var j :| 0 <= j < |p.sections| && SectionMatches(p.sections[j], term)
               && FindNav(p.navs, p.sections[j].id) == Some(k);
      FindNavIff(p.navs, p.sections[j].id, k);
    }
    if first && exists j :: 0 <= j < |p.sections| && SectionMatches(p.sections[j], term)
                           && p.sections[j].id == p.navs[k].dataSection {
      var j :| 0 <= j < |p.sections| && SectionMatches(p.sections[j], term)
               && p.sections[j].id == p.navs[k].dataSection;
      FindNavIff(p.navs, p.sections[j].id, k);
    }
  }

  /** The inline activation of a match never breaks the activation invariant: it marks
      one section and, at most, the nav item targeting that section's id. */
  lemma ActivateMatchConsistent(p: Page, f: nat)
    requires p.WellFormed() && f < |p.sections|
    ensures Consistent(ActivateMatch(p, f))
  {
    var r := ActivateMatch(p, f);
    forall k, j | 0 <= k < |r.navs| && 0 <= j < |r.sections| && r.navActive[k] && r.sectionActive[j]
      ensures r.navs[k].dataSection == r.sections[j].id
    {
      assert j == f;
    }
  }

  /** A search for a term, on a consistent page, leaves it consistent. */
  lemma SearchForConsistent(p: Page, term: string)
    requires Consistent(p)
    ensures Consistent(SearchFor(p, term))
  {
    var marked := p.(highlighted := Highlights(p.highlighted, p.navs, p.sections, term));
    match FirstMatch(p.sections, term)
    case None =>
    case Some(f) => if p.sections[f].id != "" { ActivateMatchConsistent(marked, f); }
  }

  /** A search never breaks the activation invariant: it either leaves the active flags
      alone or marks one section and, at most, the nav item targeting it. */
  lemma SearchConsistent(p: Page, query: string)
    requires Consistent(p)
    ensures Consistent(DoSearch(p, query))
  {
    var cleared := ClearHighlights(p);
    if Term(query) != "" {
      SearchForConsistent(cleared, Term(query));
    }
  }

  /** Searching twice for the same query is searching once. */
  lemma SearchIdempotent(p: Page, query: string)
    requires p.WellFormed()
    ensures DoSearch(DoSearch(p, query), query) == DoSearch(p, query)
  {
  }
}
