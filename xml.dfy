/** The element tree a parsed XML document presents to the feed decoder. Tokenising the text
    into this tree is the XML library's job and is not part of this model; only the way the
    decoder looks fields up in the tree is. */
module Xml {
  import opened Wrappers

  /** An element or attribute name: the namespace it is qualified with, if any, and its local part. */
  datatype QName = QName(ns: Option<string>, local: string)

  /** An element: its name, its attributes (unqualified, at most one per name), its text content
      if it has any, and its child elements in document order. */
  datatype Element = Element(name: QName, attrs: map<string, string>, text: Option<string>, children: seq<Element>)

  datatype Document = Document(root: Element)

  /** How a schema field name picks child elements: a plain name such as `item` matches elements
      of that local name outside any namespace; a `$ns:` name such as `$ns:content` matches
      elements of that local name qualified with a namespace. */
  datatype Selector = Plain(local: string) | Namespaced(local: string)

  predicate Matches(sel: Selector, name: QName) {
    match sel
    case Plain(local) => name == QName(None, local)
    case Namespaced(local) => name.ns.Some? && name.local == local
  }

  /** The elements of `cs` that `sel` matches, in document order. */
  function Select(cs: seq<Element>, sel: Selector): seq<Element> {
    if cs == [] then []
    else (if Matches(sel, cs[0].name) then [cs[0]] else []) + Select(cs[1..], sel)
  }

  /** Selection keeps exactly the matching elements: nothing else, and none of them is lost. */
  lemma {:induction false} SelectMembers(cs: seq<Element>, sel: Selector)
    ensures forall c :: c in Select(cs, sel) <==> c in cs && Matches(sel, c.name)
  {
    if cs != [] {
      SelectMembers(cs[1..], sel);
      assert forall c :: c in cs <==> c == cs[0] || c in cs[1..];
    }
  }

  /** Selection keeps document order: the matches among `xs + ys` are those of `xs` followed by
      those of `ys`. */
  lemma {:induction false} SelectAppend(xs: seq<Element>, ys: seq<Element>, sel: Selector)
    ensures Select(xs + ys, sel) == Select(xs, sel) + Select(ys, sel)
  {
    if xs != [] {
      var head := if Matches(sel, xs[0].name) then [xs[0]] else [];
      assert (xs + ys)[0] == xs[0] && (xs + ys)[1..] == xs[1..] + ys;
      SelectAppend(xs[1..], ys, sel);
      calc {
        Select(xs + ys, sel);
        head + Select(xs[1..] + ys, sel);
        head + (Select(xs[1..], sel) + Select(ys, sel));
        (head + Select(xs[1..], sel)) + Select(ys, sel);
      }
    } else {
      assert xs + ys == ys;
    }
  }

  lemma SelectAll(cs: seq<Element>, sel: Selector)
    requires forall c :: c in cs ==> Matches(sel, c.name)
    ensures Select(cs, sel) == cs
  {
    if cs != [] {
      assert cs == [cs[0]] + cs[1..];
      SelectAll(cs[1..], sel);
    }
  }

  lemma SelectNone(cs: seq<Element>, sel: Selector)
    requires forall c :: c in cs ==> !Matches(sel, c.name)
    ensures Select(cs, sel) == []
  {
    SelectMembers(cs, sel);
  }

  /** The position of the first element of `cs` that `sel` matches, `|cs|` when none does. */
  function FirstIndex(cs: seq<Element>, sel: Selector): (i: nat)
    ensures i <= |cs|
    ensures i < |cs| ==> Matches(sel, cs[i].name)
    ensures forall j :: 0 <= j < i ==> !Matches(sel, cs[j].name)
  {
    if cs == [] || Matches(sel, cs[0].name) then 0 else 1 + FirstIndex(cs[1..], sel)
  }

  /** The selection starts with the first match. */
  lemma {:induction false} SelectStartsAtFirst(cs: seq<Element>, sel: Selector)
    ensures Select(cs, sel) != [] <==> FirstIndex(cs, sel) < |cs|
    ensures Select(cs, sel) != [] ==> Select(cs, sel)[0] == cs[FirstIndex(cs, sel)]
  {
    if cs != [] && !Matches(sel, cs[0].name) {
      SelectStartsAtFirst(cs[1..], sel);
    }
  }

  /** The first child that `sel` matches: the head of the selection. */
  function First(cs: seq<Element>, sel: Selector): (r: Option<Element>)
    ensures r.Some? <==> exists c :: c in cs && Matches(sel, c.name)
    ensures r.Some? ==>
      exists i ::
        && 0 <= i < |cs| && cs[i] == r.value && Matches(sel, cs[i].name)
        && forall j :: 0 <= j < i ==> !Matches(sel, cs[j].name)
  {
    var m := Select(cs, sel);
    SelectMembers(cs, sel);
    SelectStartsAtFirst(cs, sel);
    if m == [] then None else assert m[0] in m; Some(m[0])
  }

  /** An element's text content, the empty string when it has none. */
  function TextOf(e: Element): string {
    match e.text
    case Some(t) => t
    case None => ""
  }

  /** The text a scalar field `name` reads from element `e`: the attribute of that name when
      there is one, otherwise the text of the first unqualified child of that name. */
  function Field(e: Element, name: string): (r: Option<string>)
    ensures r.Some? <==> name in e.attrs || exists c :: c in e.children && c.name == QName(None, name)
    ensures name in e.attrs ==> r == Some(e.attrs[name])
    ensures name !in e.attrs && First(e.children, Plain(name)).Some? ==>
      r == Some(TextOf(First(e.children, Plain(name)).value))
  {
    if name in e.attrs then Some(e.attrs[name])
    else match First(e.children, Plain(name))
      case Some(c) => Some(TextOf(c))
      case None => None
  }

  /** The element a struct-valued field `name` decodes from: the first unqualified child of that name. */
  function Child(e: Element, name: string): Option<Element> {
    First(e.children, Plain(name))
  }

  /** `e` with one more child `x`, placed before its child at position `i`. */
  function WithChild(e: Element, i: nat, x: Element): (r: Element)
    requires i <= |e.children|
    ensures x in r.children && |r.children| == |e.children| + 1
  {
    e.(children := e.children[..i] + [x] + e.children[i..])
  }

  /** A child the selector does not match changes nothing about the selection. */
  lemma SelectSkips(e: Element, i: nat, x: Element, sel: Selector)
    requires i <= |e.children| && !Matches(sel, x.name)
    ensures Select(WithChild(e, i, x).children, sel) == Select(e.children, sel)
  {
    var cs := e.children;
    SelectAppend(cs[..i] + [x], cs[i..], sel);
    SelectAppend(cs[..i], [x], sel);
    SelectAppend(cs[..i], cs[i..], sel);
    assert cs[..i] + cs[i..] == cs;
  }

  /** A child of another name changes neither the field nor the struct child `name` reads. */
  lemma LookupSkipsChild(e: Element, i: nat, x: Element, name: string)
    requires i <= |e.children| && x.name != QName(None, name)
    ensures Field(WithChild(e, i, x), name) == Field(e, name)
    ensures Child(WithChild(e, i, x), name) == Child(e, name)
  {
    SelectSkips(e, i, x, Plain(name));
  }
}
