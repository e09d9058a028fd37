/**
 Section navigation (`initNavigation`): the page's content sections, the sidebar's nav
 items, and the "active" flags that `activateSection` recomputes. A nav item is known
 by its position in the list, which stands for the element identity `===` compares.
 */
module Navigation {
  import opened Wrappers

  /** A `.content-section` element: its `id` and its text content. */
  datatype Section = Section(id: string, text: string)

  /** A `.nav-item[data-section]` element: the value of its `data-section` attribute. */
  datatype NavItem = NavItem(dataSection: string)

  /** The page state the script reads and writes. `sectionActive` and `navActive` are the
      `active` classes; `highlighted` is the search highlight (inline background) of each nav item. */
  datatype Page = Page(
    sections: seq<Section>,
    navs: seq<NavItem>,
    sectionActive: seq<bool>,
    navActive: seq<bool>,
    highlighted: seq<bool>)
  {
    predicate WellFormed() {
      |sectionActive| == |sections| && |navActive| == |navs| && |highlighted| == |navs|
    }
  }

  /** Two pages that differ at most in their active flags. */
  predicate SameButActive(p: Page, q: Page) {
    q.sections == p.sections && q.navs == p.navs && q.highlighted == p.highlighted
  }

  /** At most one flag is set. */
  predicate AtMostOne(flags: seq<bool>) {
    forall i, j :: 0 <= i < |flags| && 0 <= j < |flags| && flags[i] && flags[j] ==> i == j
  }

  /** No two sections share an id, as HTML requires of element ids. */
  predicate UniqueIds(sections: seq<Section>) {
    forall i, j :: 0 <= i < |sections| && 0 <= j < |sections| && sections[i].id == sections[j].id ==> i == j
  }

  /** The invariant the activation state is meant to keep: at most one active section,
      at most one active nav item, and when both exist they name the same section. */
  predicate Consistent(p: Page) {
    && p.WellFormed()
    && AtMostOne(p.sectionActive)
    && AtMostOne(p.navActive)
    && forall k, j :: 0 <= k < |p.navs| && 0 <= j < |p.sections| && p.navActive[k] && p.sectionActive[j] ==>
         p.navs[k].dataSection == p.sections[j].id
  }

  /** `document.querySelector('.nav-item[data-section="id"]')`: the first nav item, in
      document order, whose `data-section` is `id`, or none. */
  function FindNav(navs: seq<NavItem>, id: string): (r: Option<nat>)
    ensures r.Some? ==> r.value < |navs| && navs[r.value].dataSection == id
    ensures r.Some? ==> forall k :: 0 <= k < r.value ==> navs[k].dataSection != id
    ensures r.None? <==> forall k :: 0 <= k < |navs| ==> navs[k].dataSection != id
    decreases |navs|
  {
    if |navs| == 0 then
      None
    else if navs[0].dataSection == id then
      Some(0)
    else
      match FindNav(navs[1..], id)
      case None => None
      case Some(k) => Some(k + 1)
  }

  /** `FindNav` picks nav item `k` exactly when `k` carries `id` and no earlier item does. */
  lemma FindNavIff(navs: seq<NavItem>, id: string, k: nat)
    requires k < |navs|
    ensures FindNav(navs, id) == Some(k) <==>
      navs[k].dataSection == id && forall k' :: 0 <= k' < k ==> navs[k'].dataSection != id
  {
  }

  /** `activateSection(sectionId, navToActivate)`: a nav item becomes active iff it is the
      given one, a section iff its id is `sectionId`. Nothing else changes. */
  function Activate(p: Page, sectionId: string, nav: nat): (r: Page)
    requires p.WellFormed() && nav < |p.navs|
    ensures r.WellFormed() && SameButActive(p, r)
    ensures forall k :: 0 <= k < |r.navs| ==> (r.navActive[k] <==> k == nav)
    ensures forall j :: 0 <= j < |r.sections| ==> (r.sectionActive[j] <==> r.sections[j].id == sectionId)
  {
    p.(navActive := seq(|p.navs|, k => k == nav),
       sectionActive := seq(|p.sections|, j requires 0 <= j < |p.sections| => p.sections[j].id == sectionId))
  }

  /** The outcome of `Activate` does not depend on the flags it starts from. */
  lemma ActivateForgetsHistory(p: Page, q: Page, sectionId: string, nav: nat)
    requires p.WellFormed() && q.WellFormed() && nav < |p.navs|
    requires p.sections == q.sections && p.navs == q.navs && p.highlighted == q.highlighted
    ensures Activate(p, sectionId, nav) == Activate(q, sectionId, nav)
  {
  }

  /** Activating twice with the same arguments is activating once. */
  lemma ActivateIdempotent(p: Page, sectionId: string, nav: nat)
    requires p.WellFormed() && nav < |p.navs|
    ensures Activate(Activate(p, sectionId, nav), sectionId, nav) == Activate(p, sectionId, nav)
  {
    ActivateForgetsHistory(Activate(p, sectionId, nav), p, sectionId, nav);
  }

  /** There is no unknown-id guard: with an id no section has, every section ends up
      inactive while the nav item is still marked. */
  lemma ActivateUnknownId(p: Page, sectionId: string, nav: nat)
    requires p.WellFormed() && nav < |p.navs|
    requires forall j :: 0 <= j < |p.sections| ==> p.sections[j].id != sectionId
    ensures var r := Activate(p, sectionId, nav);
      && r.navActive[nav]
      && forall j :: 0 <= j < |r.sections| ==> !r.sectionActive[j]
  {
  }

  /** With unique section ids, activating a nav item's own section leaves a consistent state. */
  lemma ActivateConsistent(p: Page, nav: nat)
    requires p.WellFormed() && nav < |p.navs| && UniqueIds(p.sections)
    ensures Consistent(Activate(p, p.navs[nav].dataSection, nav))
  {
  }

  /** The click handler of nav item `k`: an empty `data-section` does nothing, otherwise
      its section is activated. The handlers exist only when the page has nav items and
      sections. */
  function Click(p: Page, k: nat): (r: Page)
    requires p.WellFormed() && k < |p.navs|
    ensures r.WellFormed() && SameButActive(p, r)
    ensures |p.sections| == 0 || p.navs[k].dataSection == "" ==> r == p
    ensures |p.sections| > 0 && p.navs[k].dataSection != "" ==>
      && (forall k' :: 0 <= k' < |p.navs| ==> (r.navActive[k'] <==> k' == k))
      && (forall j :: 0 <= j < |p.sections| ==> (r.sectionActive[j] <==> p.sections[j].id == p.navs[k].dataSection))
  {
    if |p.sections| == 0 || p.navs[k].dataSection == "" then p
    else Activate(p, p.navs[k].dataSection, k)
  }

  /** `r` is `s` with its first `c`, at index `i`, taken out. */
  ghost predicate RemovedAt(s: string, c: char, r: string, i: int) {
    0 <= i < |s| && s[i] == c && c !in s[..i] && r == s[..i] + s[i + 1..]
  }

  /** `hash.replace('#', '')`: removes the first `c` in `s`, wherever it is, and
      returns `s` unchanged when there is none. */
  function RemoveFirst(s: string, c: char): (r: string)
    ensures c !in s ==> r == s
    ensures c in s ==> exists i :: RemovedAt(s, c, r, i)
    decreases |s|
  {
    if |s| == 0 then
      s
    else if s[0] == c then
      assert RemovedAt(s, c, s[1..], 0);
      s[1..]
    else
      var rest := RemoveFirst(s[1..], c);
      RemoveFirstStep(s, c, rest);
      [s[0]] + rest
  }

  /** Keeping a first character that is not `c` keeps the characterisation of `RemoveFirst`. */
  lemma RemoveFirstStep(s: string, c: char, rest: string)
    requires |s| > 0 && s[0] != c
    requires c !in s[1..] ==> rest == s[1..]
    requires c in s[1..] ==> exists i :: RemovedAt(s[1..], c, rest, i)
    ensures c !in s ==> [s[0]] + rest == s
    ensures c in s ==> exists i :: RemovedAt(s, c, [s[0]] + rest, i)
  {
    var r := [s[0]] + rest;
    assert s == [s[0]] + s[1..];
    if c in s[1..] {
      var i :| RemovedAt(s[1..], c, rest, i);
      assert s[..i + 1] == [s[0]] + s[1..][..i];
      assert s[i + 2..] == s[1..][i + 1..];
      assert RemovedAt(s, c, r, i + 1);
    }
  }

  /** A fragment read from the URL starts with `#`, and that is the character removed. */
  lemma RemoveFirstLeading(s: string, c: char)
    requires |s| > 0 && s[0] == c
    ensures RemoveFirst(s, c) == s[1..]
  {
  }

  /** The id named by a URL fragment: the fragment without its leading `#`. */
  function HashTarget(hash: string): (r: string)
    ensures |hash| > 0 && hash[0] == '#' ==> r == hash[1..]
    ensures '#' !in hash ==> r == hash
  {
    RemoveFirst(hash, '#')
  }

  /** The URL-fragment bootstrap at the end of `initNavigation`: when the page has nav
      items and sections and the fragment is non-empty, the fragment's id is activated
      together with the first nav item that targets it; if no nav item targets it, the
      flags are left as they were. */
  function Bootstrap(p: Page, hash: string): (r: Page)
    requires p.WellFormed()
    ensures r.WellFormed() && SameButActive(p, r)
    ensures |p.navs| == 0 || |p.sections| == 0 || hash == "" ==> r == p
    ensures (forall k :: 0 <= k < |p.navs| ==> p.navs[k].dataSection != HashTarget(hash)) ==> r == p
    ensures |p.sections| > 0 && hash != "" ==> forall k :: 0 <= k < |p.navs| && p.navs[k].dataSection == HashTarget(hash) ==>
      && (forall j :: 0 <= j < |p.sections| ==> (r.sectionActive[j] <==> p.sections[j].id == HashTarget(hash)))
      && (forall k' :: 0 <= k' < |p.navs| ==> (r.navActive[k'] <==> FindNav(p.navs, HashTarget(hash)) == Some(k')))
  {
    if |p.navs| == 0 || |p.sections| == 0 || hash == "" then
      p
    else
      var id := HashTarget(hash);
      match FindNav(p.navs, id)
      case None => p
      case Some(k) => Activate(p, id, k)
  }

  /** A fragment `#x` activates section `x` exactly when some nav item targets `x`. */
  lemma BootstrapFragment(p: Page, x: string)
    requires p.WellFormed() && |p.sections| > 0
    ensures var r := Bootstrap(p, "#" + x);
      (exists k :: 0 <= k < |p.navs| && p.navs[k].dataSection == x) ==>
        forall j :: 0 <= j < |p.sections| ==> (r.sectionActive[j] <==> p.sections[j].id == x)
    ensures (forall k :: 0 <= k < |p.navs| ==> p.navs[k].dataSection != x) ==> Bootstrap(p, "#" + x) == p
  {
    assert HashTarget("#" + x) == x;
  }

  /** With unique section ids, the bootstrap keeps the activation state consistent. */
  lemma BootstrapConsistent(p: Page, hash: string)
    requires Consistent(p) && UniqueIds(p.sections)
    ensures Consistent(Bootstrap(p, hash))
  {
    if |p.navs| > 0 && |p.sections| > 0 && hash != "" {
      var id := HashTarget(hash);
      match FindNav(p.navs, id)
      case None =>
      case Some(k) => ActivateConsistent(p, k);
    }
  }

  /** With unique section ids, a click keeps the activation state consistent. */
  lemma ClickConsistent(p: Page, k: nat)
    requires Consistent(p) && UniqueIds(p.sections) && k < |p.navs|
    ensures Consistent(Click(p, k))
  {
    if |p.sections| > 0 && p.navs[k].dataSection != "" {
      ActivateConsistent(p, k);
    }
  }
}
