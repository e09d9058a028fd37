/** The sanitizer on a concrete string. */
module SanitizerExamples {
  import opened Sanitizer

  /** Stand-in emoji class for the examples: the Miscellaneous Symbols and Pictographs block. */
  predicate DemoPict(c: char) {
    '\U{1F300}' <= c <= '\U{1F5FF}'
  }

  /** Removing one emoji from between two emoji-free strings just closes the gap. */
  lemma StripOne(a: string, c: char, b: string, isPict: char -> bool)
    requires isPict(c)
    requires forall i :: 0 <= i < |a| ==> !isPict(a[i])
    requires forall i :: 0 <= i < |b| ==> !isPict(b[i])
    ensures Strip(a + [c] + b, isPict) == a + b
  {
    StripUnchangedIff(a, isPict);
    StripUnchangedIff(b, isPict);
    StripChar(c, isPict);
    StripConcat(a, [c], isPict);
    StripConcat(a + [c], b, isPict);
  }

  /** "Hello 🎉 World" loses the party popper and keeps both spaces. */
  lemma HelloWorld()
    ensures Strip("Hello " + ['\U{1F389}'] + " World", DemoPict) == "Hello  World"
  {
    StripOne("Hello ", '\U{1F389}', " World", DemoPict);
  }
}

/** Concrete pages worked through the navigation model. */
module NavigationExamples {
  import opened Wrappers
  import opened Navigation

  /** Three sections, each with its own nav item, nothing active yet. */
  function Docs(): (p: Page)
    ensures p.WellFormed()
  {
    Page(
      [Section("intro", "Welcome to Zig"), Section("faq", "Frequently asked questions"),
       Section("about", "About Zig project")],
      [NavItem("intro"), NavItem("faq"), NavItem("about")],
      [false, false, false], [false, false, false], [false, false, false])
  }

  /** Proof helper: splits the fragment literals into `#` and id, which the verifier
      does not do for string literals by itself. */
  lemma FragmentLiterals()
    ensures "#faq" == "#" + "faq" && "#missing" == "#" + "missing"
  {
  }

  /** Proof helper: lets the verifier compare a three-element flag sequence with a
      sequence literal, element by element. */
  lemma ThreeFlags(s: seq<bool>)
    requires |s| == 3
    ensures s == [s[0], s[1], s[2]]
  {
  }

  /** Loading with `#x`, where nav item `k` is the first to target `x`, activates the
      sections with id `x` and nav item `k` only. */
  lemma FragmentFirstNav(p: Page, x: string, k: nat)
    requires p.WellFormed() && |p.sections| > 0 && k < |p.navs| && p.navs[k].dataSection == x
    requires forall k' :: 0 <= k' < k ==> p.navs[k'].dataSection != x
    ensures forall j :: 0 <= j < |p.sections| ==> (Bootstrap(p, "#" + x).sectionActive[j] <==> p.sections[j].id == x)
    ensures forall k' :: 0 <= k' < |p.navs| ==> (Bootstrap(p, "#" + x).navActive[k'] <==> k' == k)
  {
    assert HashTarget("#" + x) == x;
    FindNavIff(p.navs, x, k);
  }

  /** Loading with `#faq` activates the `faq` section and its nav item. */
  lemma FaqFragment()
    ensures Bootstrap(Docs(), "#faq").sectionActive == [false, true, false]
    ensures Bootstrap(Docs(), "#faq").navActive == [false, true, false]
  {
    var p := Docs();
    FragmentLiterals();
    assert p.navs[0].dataSection[0] == 'i';
    FragmentFirstNav(p, "faq", 1);
    var r := Bootstrap(p, "#faq");
    assert p.sections[0].id[0] == 'i' && p.sections[2].id[0] == 'a';
    ThreeFlags(r.sectionActive);
    ThreeFlags(r.navActive);
  }

  /** Loading with `#missing` changes nothing. */
  lemma MissingFragment()
    ensures Bootstrap(Docs(), "#missing") == Docs()
  {
    var p := Docs();
    FragmentLiterals();
    assert forall k :: 0 <= k < |p.navs| ==> |p.navs[k].dataSection| != |"missing"|;
    BootstrapFragment(p, "missing");
  }
}

/** A search for "zig" on a three-section page worked through the model. */
module SearchExamples {
  import opened Wrappers
  import opened Text
  import opened Navigation
  import opened Search
  import NavigationExamples

  /** A window equal to the needle is an occurrence. */
  lemma IncludesWitness(hay: string, needle: string, i: nat)
    requires i + |needle| <= |hay| && hay[i..i + |needle|] == needle
    ensures Includes(hay, needle)
  {
    assert OccursAt(hay, needle, i);
  }

  /** A needle whose first character never appears in the haystack does not occur in it. */
  lemma IncludesMissingChar(hay: string, needle: string)
    requires |needle| > 0 && forall i :: 0 <= i < |hay| ==> hay[i] != needle[0]
    ensures !Includes(hay, needle)
  {
  }

  /** The query "zig" normalises to itself. */
  lemma ZigTerm()
    ensures Term("zig") == "zig"
  {
    var s := "zig";
    assert s[0] == 'z' && s[2] == 'g';
    TermFixed(s);
  }

  lemma IntroMatchesZig()
    ensures SectionMatches(Section("intro", "Welcome to Zig"), "zig")
  {
    var t := ToLower("Welcome to Zig");
    assert t[11] == 'z' && t[12] == 'i' && t[13] == 'g';
    IncludesWitness(t, "zig", 11);
  }

  lemma FaqMissesZig()
    ensures !SectionMatches(Section("faq", "Frequently asked questions"), "zig")
  {
    var s := "Frequently asked questions";
    assert forall i :: 0 <= i < |s| ==> s[i] != 'z' && s[i] != 'Z';
    var t := ToLower(s);
    IncludesMissingChar(t, "zig");
  }

  lemma AboutMatchesZig()
    ensures SectionMatches(Section("about", "About Zig project"), "zig")
  {
    var t := ToLower("About Zig project");
    assert t[6] == 'z' && t[7] == 'i' && t[8] == 'g';
    IncludesWitness(t, "zig", 6);
  }

  /** A three-section page whose nav items follow the sections one to one, searched with
      a term that matches the first and last sections but not the middle one. */
  lemma SearchFirstAndLast(p: Page, query: string)
    requires p.WellFormed() && |p.sections| == 3 && |p.navs| == 3
    requires p.navs[0].dataSection == p.sections[0].id && p.navs[1].dataSection == p.sections[1].id
    requires p.navs[2].dataSection == p.sections[2].id
    requires p.sections[0].id != p.sections[1].id && p.sections[0].id != p.sections[2].id
    requires p.sections[1].id != p.sections[2].id && p.sections[0].id != ""
    requires Term(query) != ""
    requires SectionMatches(p.sections[0], Term(query))
    requires !SectionMatches(p.sections[1], Term(query))
    requires SectionMatches(p.sections[2], Term(query))
    ensures DoSearch(p, query).highlighted == [true, false, true]
    ensures DoSearch(p, query).sectionActive == [true, false, false]
    ensures DoSearch(p, query).navActive == [true, false, false]
  {
    var term := Term(query);
    FindNavIff(p.navs, p.sections[0].id, 0);
    FindNavIff(p.navs, p.sections[1].id, 1);
    FindNavIff(p.navs, p.sections[2].id, 2);
    assert FindNav(p.navs, p.sections[0].id) == Some(0);
    assert FindNav(p.navs, p.sections[2].id) == Some(2);
    assert FirstMatch(p.sections, term) == Some(0);
    var r := DoSearch(p, query);
    assert r.highlighted[0] && r.highlighted[2];
    assert !r.highlighted[1] by {
      forall j | 0 <= j < 3 && SectionMatches(p.sections[j], term)
        ensures FindNav(p.navs, p.sections[j].id) != Some(1)
      {
        if j == 0 {
        } else if j == 1 {
          assert false;
        } else {
          assert j == 2;
        }
      }
    }
    assert r.sectionActive[0] && !r.sectionActive[1] && !r.sectionActive[2];
    assert r.navActive[0] && !r.navActive[1] && !r.navActive[2];
    NavigationExamples.ThreeFlags(r.highlighted);
    NavigationExamples.ThreeFlags(r.sectionActive);
    NavigationExamples.ThreeFlags(r.navActive);
  }

  /** Searching "zig" matches `intro` and `about` but not `faq`: both their nav items are
      highlighted, and the first match, `intro`, becomes the active section with its nav item. */
  lemma ZigSearch()
    ensures var r := DoSearch(NavigationExamples.Docs(), "zig");
      && r.highlighted == [true, false, true]
      && r.sectionActive == [true, false, false]
      && r.navActive == [true, false, false]
  {
    ZigTerm();
    IntroMatchesZig();
    FaqMissesZig();
    AboutMatchesZig();
    var p := NavigationExamples.Docs();
    assert p.sections[0] == Section("intro", "Welcome to Zig");
    assert p.sections[1] == Section("faq", "Frequently asked questions");
    assert p.sections[2] == Section("about", "About Zig project");
    assert p.navs[0].dataSection == "intro" && p.navs[1].dataSection == "faq" && p.navs[2].dataSection == "about";
    assert "intro"[0] == 'i' && "faq"[0] == 'f' && "about"[0] == 'a';
    SearchFirstAndLast(p, "zig");
  }
}
