/**
 The emoji sanitizer run once at page load (`removeEmojisFromDOM`). It makes two passes:
 icon-bearing elements get their whole text replaced by the trimmed, emoji-free text,
 then every text node outside `script`/`style` loses its emoji, written back only when
 that changes it. The emoji class is a parameter `isPict`, standing for the
 Extended_Pictographic property the script's regular expression tests.
 */
module Sanitizer {
  import opened Text

  /** `text.replace(emojiRegex, '')`: the characters of `s` that are not pictographic. */
  function Strip(s: string, isPict: char -> bool): (r: string)
    ensures |r| <= |s|
    ensures forall i :: 0 <= i < |r| ==> !isPict(r[i])
    decreases |s|
  {
    if |s| == 0 then
      ""
    else
      var rest := Strip(s[1..], isPict);
      if isPict(s[0]) then rest else [s[0]] + rest
  }

  /** Every non-pictographic character keeps its number of occurrences; every
      pictographic one is gone. */
  lemma {:induction false} StripCounts(s: string, isPict: char -> bool, c: char)
    ensures multiset(Strip(s, isPict))[c] == if isPict(c) then 0 else multiset(s)[c]
    decreases |s|
  {
    if |s| > 0 {
      assert s == [s[0]] + s[1..];
      StripCounts(s[1..], isPict, c);
    }
  }

  /** Removal is per character and keeps order: it distributes over concatenation. */
  lemma {:induction false} StripConcat(a: string, b: string, isPict: char -> bool)
    ensures Strip(a + b, isPict) == Strip(a, isPict) + Strip(b, isPict)
    decreases |a|
  {
    if |a| == 0 {
      assert a + b == b;
    } else {
      assert (a + b)[1..] == a[1..] + b;
      StripConcat(a[1..], b, isPict);
    }
  }

  /** A single character survives exactly when it is not pictographic. */
  lemma StripChar(c: char, isPict: char -> bool)
    ensures Strip([c], isPict) == if isPict(c) then [] else [c]
  {
    assert [c][1..] == [];
  }

  /** The regex replacement changes a string exactly when it holds a pictographic character. */
  lemma {:induction false} StripUnchangedIff(s: string, isPict: char -> bool)
    ensures Strip(s, isPict) == s <==> forall i :: 0 <= i < |s| ==> !isPict(s[i])
    decreases |s|
  {
    if |s| > 0 && forall i :: 0 <= i < |s| ==> !isPict(s[i]) {
      assert forall i :: 0 <= i < |s[1..]| ==> !isPict(s[1..][i]) by {
        forall i | 0 <= i < |s[1..]| ensures !isPict(s[1..][i]) {
          assert s[1..][i] == s[i + 1];
        }
      }
      StripUnchangedIff(s[1..], isPict);
      assert s == [s[0]] + s[1..];
    }
  }

  /** Removing emoji from emoji-free text changes nothing. */
  lemma StripIdempotent(s: string, isPict: char -> bool)
    ensures Strip(Strip(s, isPict), isPict) == Strip(s, isPict)
  {
    StripUnchangedIff(Strip(s, isPict), isPict);
  }

  /** The new text of an icon element: `textContent.replace(emojiRegex, '').trim()`. */
  function IconText(s: string, isPict: char -> bool): (r: string)
    ensures forall i :: 0 <= i < |r| ==> !isPict(r[i])
    ensures |r| > 0 ==> !IsWhitespace(r[0]) && !IsWhitespace(r[|r| - 1])
    ensures exists a :: PaddedAt(Strip(s, isPict), r, a)
  {
    var t := Strip(s, isPict);
    TrimKeepsAll(t, c => !isPict(c));
    Trim(t)
  }

  /** Cleaning an icon's text a second time changes nothing. */
  lemma IconTextIdempotent(s: string, isPict: char -> bool)
    ensures IconText(IconText(s, isPict), isPict) == IconText(s, isPict)
  {
    var r := IconText(s, isPict);
    StripUnchangedIff(r, isPict);
    TrimFixed(r);
  }

  /** The two kinds of CSS selector the icon pass uses. */
  datatype Selector = ById(id: string) | ByClass(name: string)

  /** An element that an icon selector can match, with its text content. */
  datatype Element = Element(id: string, classes: set<string>, text: string)

  predicate Selects(sel: Selector, e: Element) {
    match sel
    case ById(x) => e.id == x
    case ByClass(c) => c in e.classes
  }

  /** The selectors of the icon pass, in the order the script visits them. */
  const IconSelectors: seq<Selector> :=
    [ById("themeIcon"), ByClass("search-icon"), ByClass("icon"), ByClass("badge")]

  /** Some selector of `sels` matches `e`. */
  predicate AnySelects(sels: seq<Selector>, e: Element) {
    exists k :: 0 <= k < |sels| && Selects(sels[k], e)
  }

  /** One `querySelectorAll(sel).forEach(...)` round of the icon pass. */
  function CleanSelected(els: seq<Element>, sel: Selector, isPict: char -> bool): seq<Element> {
    seq(|els|, i requires 0 <= i < |els| =>
      if Selects(sel, els[i]) then els[i].(text := IconText(els[i].text, isPict)) else els[i])
  }

  /** The icon pass over `sels` in order. An element matched by several selectors is
      cleaned several times, which by idempotence is the same as once. */
  function IconPass(els: seq<Element>, sels: seq<Selector>, isPict: char -> bool): (r: seq<Element>)
    ensures |r| == |els|
    ensures forall i :: 0 <= i < |els| ==> r[i].id == els[i].id && r[i].classes == els[i].classes
    ensures forall i :: 0 <= i < |els| ==>
      r[i].text == if AnySelects(sels, els[i]) then IconText(els[i].text, isPict) else els[i].text
    decreases |sels|
  {
    if |sels| == 0 then
      els
    else
      var once := CleanSelected(els, sels[0], isPict);
      var r := IconPass(once, sels[1..], isPict);
      forall i | 0 <= i < |els|
        ensures r[i].text == if AnySelects(sels, els[i]) then IconText(els[i].text, isPict) else els[i].text
      {
        AnySelectsSplit(sels, els[i]);
        AnySelectsSame(sels[1..], els[i], once[i]);
        IconTextIdempotent(els[i].text, isPict);
      }
      r
  }

  /** A list of selectors matches when its head does or its tail does. */
  lemma AnySelectsSplit(sels: seq<Selector>, e: Element)
    requires |sels| > 0
    ensures AnySelects(sels, e) <==> Selects(sels[0], e) || AnySelects(sels[1..], e)
  {
    if AnySelects(sels, e) && !Selects(sels[0], e) {
      var k :| 0 <= k < |sels| && Selects(sels[k], e);
      assert Selects(sels[1..][k - 1], e);
    }
    if AnySelects(sels[1..], e) {
      var k :| 0 <= k < |sels[1..]| && Selects(sels[1..][k], e);
      assert Selects(sels[k + 1], e);
    }
  }

  /** Selectors look only at id and classes, not at the text. */
  lemma AnySelectsSame(sels: seq<Selector>, e: Element, e': Element)
    requires e.id == e'.id && e.classes == e'.classes
    ensures AnySelects(sels, e) <==> AnySelects(sels, e')
  {
    if AnySelects(sels, e) {
      var k :| 0 <= k < |sels| && Selects(sels[k], e);
      assert Selects(sels[k], e');
    }
    if AnySelects(sels, e') {
      var k :| 0 <= k < |sels| && Selects(sels[k], e');
      assert Selects(sels[k], e);
    }
  }

  /** The node a text node hangs from: none, a non-element node, or an element with a tag name. */
  datatype Parent = Detached | NonElement | ElementParent(tagName: string)

  datatype TextNode = TextNode(parent: Parent, value: string)

  /** The text pass leaves a node alone when it has no parent or its parent is a
      `script` or `style` element (tag names compared lower-cased). */
  predicate Exempt(n: TextNode) {
    || n.parent.Detached?
    || (n.parent.ElementParent? && ToLower(n.parent.tagName) in {"script", "style"})
  }

  /** What the text pass did to one node: its new state and whether `nodeValue` was assigned. */
  datatype Visit = Visit(node: TextNode, written: bool)

  /** One step of the text pass's `forEach`: an exempt node is skipped; any other node
      gets its emoji removed, and `nodeValue` is assigned only when that changes it. */
  function VisitNode(n: TextNode, isPict: char -> bool): (v: Visit)
    ensures v.node.parent == n.parent
    ensures Exempt(n) ==> v.node == n && !v.written
    ensures !Exempt(n) ==> v.node.value == Strip(n.value, isPict)
    ensures v.written <==> v.node.value != n.value
    ensures v.written <==> !Exempt(n) && exists j :: 0 <= j < |n.value| && isPict(n.value[j])
  {
    if Exempt(n) then
      Visit(n, false)
    else
      var t := Strip(n.value, isPict);
      StripUnchangedIff(n.value, isPict);
      Visit(n.(value := t), t != n.value)
  }

  /** The text pass of `removeEmojisFromDOM` over the nodes the tree walker collected, in order. */
  function TextPass(nodes: seq<TextNode>, isPict: char -> bool): (r: seq<Visit>)
    ensures |r| == |nodes|
    ensures forall i :: 0 <= i < |nodes| ==> r[i] == VisitNode(nodes[i], isPict)
  {
    seq(|nodes|, i requires 0 <= i < |nodes| => VisitNode(nodes[i], isPict))
  }

  /** The node states a pass leaves behind. */
  function After(vs: seq<Visit>): (r: seq<TextNode>)
    ensures |r| == |vs|
    ensures forall i :: 0 <= i < |vs| ==> r[i] == vs[i].node
  {
    seq(|vs|, i requires 0 <= i < |vs| => vs[i].node)
  }

  /** Running the text pass on its own output writes nothing and changes nothing. */
  lemma TextPassIdempotent(nodes: seq<TextNode>, isPict: char -> bool)
    ensures var once := After(TextPass(nodes, isPict));
      && After(TextPass(once, isPict)) == once
      && forall i :: 0 <= i < |once| ==> !TextPass(once, isPict)[i].written
  {
    var once := After(TextPass(nodes, isPict));
    var twice := TextPass(once, isPict);
    forall i | 0 <= i < |once|
      ensures twice[i].node == once[i] && !twice[i].written
    {
      if !Exempt(once[i]) {
        StripIdempotent(nodes[i].value, isPict);
      }
    }
    assert After(twice) == once;
  }
}
