/** The automation tree as the core sees it, and the three extension readers
    of Extensions/AutomationElementExtension.cs. */
module Automation {
  import opened Wrappers

  /** One node of the UI automation tree. A `None` name or class name stands
      for a read that throws (the element went away, the property is not
      supported); the children are in tree order. */
  datatype Element = Element(name: Option<string>, className: Option<string>, children: seq<Element>)

  /** The element's name, or "" when reading it fails; never fails itself. */
  function GetCurrentName(el: Element): (r: string)
    ensures el.name.Some? ==> r == el.name.value
    ensures el.name.None? ==> r == ""
  {
    match el.name
    case Some(n) => n
    case None => ""
  }

  /** The element's class name, or "" when reading it fails; never fails itself. */
  function GetCurrentClassName(el: Element): (r: string)
    ensures el.className.Some? ==> r == el.className.value
    ensures el.className.None? ==> r == ""
  {
    match el.className
    case Some(c) => c
    case None => ""
  }

  /** The index of the first element of `s` that satisfies `p`, if any. */
  function FirstIndex(s: seq<Element>, p: Element -> bool): (r: Option<nat>)
    ensures r.None? <==> forall i :: 0 <= i < |s| ==> !p(s[i])
    ensures r.Some? ==> r.value < |s| && p(s[r.value])
    ensures r.Some? ==> forall j :: 0 <= j < r.value ==> !p(s[j])
  {
    if s == [] then None
    else if p(s[0]) then Some(0)
    else match FirstIndex(s[1..], p)
      case None => None
      case Some(i) => Some(i + 1)
  }

  /** No direct child of `parent` satisfies `p`. */
  predicate NoneMatch(parent: Element, p: Element -> bool) {
    forall i :: 0 <= i < |parent.children| ==> !p(parent.children[i])
  }

  /** `x` is the direct child of `parent` at index `i`, satisfies `p`, and
      no earlier child does. */
  ghost predicate FirstMatchAt(parent: Element, p: Element -> bool, x: Element, i: int) {
    0 <= i < |parent.children| && parent.children[i] == x && p(x)
    && forall j :: 0 <= j < i ==> !p(parent.children[j])
  }

  /** `x` is the first direct child of `parent` that satisfies `p`. */
  ghost predicate IsFirstMatch(parent: Element, p: Element -> bool, x: Element) {
    exists i :: FirstMatchAt(parent, p, x, i)
  }

  /** `FindOneBy`: the first DIRECT child satisfying `p` (`FirstOrDefault`
      over `FindAllChildren`), or `None` (C# null) when no child does.
      Grandchildren are never examined. */
  function FindOneBy(el: Element, p: Element -> bool): (r: Option<Element>)
    ensures r.None? <==> NoneMatch(el, p)
    ensures r.Some? ==> p(r.value) && IsFirstMatch(el, p, r.value)
  {
    match FirstIndex(el.children, p)
    case None => None
    case Some(i) =>
      assert FirstMatchAt(el, p, el.children[i], i);
      Some(el.children[i])
  }

  /** There is only one first match, so `FindOneBy` returns it whenever it
      exists. */
  lemma FindOneByFindsFirstMatch(el: Element, p: Element -> bool, x: Element)
    requires IsFirstMatch(el, p, x)
    ensures FindOneBy(el, p) == Some(x)
  {
    var i :| FirstMatchAt(el, p, x, i);
    assert FirstIndex(el.children, p) == Some(i);
  }
}
