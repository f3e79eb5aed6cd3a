/** The part of Python's xml.etree.ElementTree that the flattener relies on:
    a parsed element tree, attribute lookup with a default, and the three
    path queries `find("T")`, `findall(".//T")` and `findall(".//A/B")`,
    each returning its matches in the order ElementTree yields them. */
module ElementTree {

  datatype Option<+T> = None | Some(value: T)

  /** An XML element: its tag, its attribute dictionary and its child
      elements in document order. */
  datatype Element = Element(tag: string, attrib: map<string, string>, children: seq<Element>)

  /** `attrib.get(key, "")`. */
  function Get(attrib: map<string, string>, key: string): string
  {
    if key in attrib then attrib[key] else ""
  }

  /** Index of the first element of `cs` whose tag is `tag`. */
  function FirstIndex(cs: seq<Element>, tag: string): (r: Option<nat>)
    ensures r.Some? ==> r.value < |cs|
  {
    if cs == [] then None
    else if cs[0].tag == tag then Some(0)
    else match FirstIndex(cs[1..], tag)
      case None => None
      case Some(i) => Some(i + 1)
  }

  /** `e.find(tag)`: the first direct child of `e` with that tag, or None
      (Python's `None`, on which a later `.attrib` raises). */
  function FindChild(e: Element, tag: string): Option<Element>
  {
    match FirstIndex(e.children, tag)
    case None => None
    case Some(i) => Some(e.children[i])
  }

  /** The elements of `cs` whose tag is `tag`, in order. */
  function Tagged(cs: seq<Element>, tag: string): seq<Element>
  {
    if cs == [] then []
    else (if cs[0].tag == tag then [cs[0]] else []) + Tagged(cs[1..], tag)
  }

  /** `e.findall(".//" + tag)`: every element strictly below `e` whose tag is
      `tag`, in document (pre-)order, as `e.iter(tag)` without `e` itself. */
  function Descendants(e: Element, tag: string): seq<Element>
    decreases e, 1
  {
    DescendantsIn(e.children, tag)
  }

  /** The tagged elements of the subtrees rooted at `cs`, roots included,
      subtree after subtree. */
  function DescendantsIn(cs: seq<Element>, tag: string): seq<Element>
    decreases cs, 0
  {
    if cs == [] then []
    else (if cs[0].tag == tag then [cs[0]] else []) + Descendants(cs[0], tag) + DescendantsIn(cs[1..], tag)
  }

  /** The `b`-tagged direct children of the elements `ds`, parent after parent. */
  function ChildrenOfAll(ds: seq<Element>, b: string): seq<Element>
  {
    if ds == [] then [] else Tagged(ds[0].children, b) + ChildrenOfAll(ds[1..], b)
  }

  /** `e.findall(".//" + a + "/" + b)`: for every `a`-tagged element strictly
      below `e`, in document order, its direct children tagged `b`. */
  function ChildPath(e: Element, a: string, b: string): seq<Element>
  {
    ChildrenOfAll(Descendants(e, a), b)
  }

  /** `x` occurs strictly below `e` in the tree. */
  ghost predicate Below(x: Element, e: Element)
    decreases e
  {
    exists i :: 0 <= i < |e.children| && (e.children[i] == x || Below(x, e.children[i]))
  }

  /** `x` is one of the roots `cs` or lies below one of them. */
  ghost predicate InForest(x: Element, cs: seq<Element>)
  {
    exists i :: 0 <= i < |cs| && (cs[i] == x || Below(x, cs[i]))
  }

  /** FirstIndex finds the first element with the tag, and finds none
      exactly when no element has it. */
  lemma {:induction false} FirstIndexSpec(cs: seq<Element>, tag: string)
    ensures FirstIndex(cs, tag).Some? ==>
      var i := FirstIndex(cs, tag).value;
      cs[i].tag == tag && forall j :: 0 <= j < i ==> cs[j].tag != tag
    ensures FirstIndex(cs, tag).None? <==> forall j :: 0 <= j < |cs| ==> cs[j].tag != tag
  {
    if cs != [] && cs[0].tag != tag {
      FirstIndexSpec(cs[1..], tag);
      assert forall j :: 1 <= j < |cs| ==> cs[j] == cs[1..][j - 1];
    }
  }

  /** Tagged keeps exactly the elements with the tag, and never more than
      it was given. */
  lemma {:induction false} TaggedSpec(cs: seq<Element>, tag: string)
    ensures |Tagged(cs, tag)| <= |cs|
    ensures forall x :: x in Tagged(cs, tag) <==> x in cs && x.tag == tag
  {
    if cs != [] {
      TaggedSpec(cs[1..], tag);
      assert forall x :: x in cs <==> x == cs[0] || x in cs[1..];
    }
  }

  /** `find` returns a child with the requested tag, the first one; it
      returns None exactly when no child has that tag. */
  lemma FindChildSpec(e: Element, tag: string)
    ensures FindChild(e, tag).None? <==> forall c :: c in e.children ==> c.tag != tag
    ensures FindChild(e, tag).Some? ==>
      exists i :: 0 <= i < |e.children| && e.children[i] == FindChild(e, tag).value && e.children[i].tag == tag &&
        forall j :: 0 <= j < i ==> e.children[j].tag != tag
  {
    FirstIndexSpec(e.children, tag);
    match FirstIndex(e.children, tag)
    case None =>
      forall c | c in e.children ensures c.tag != tag {
        var j :| 0 <= j < |e.children| && e.children[j] == c;
      }
    case Some(i) =>
      assert e.children[i] in e.children;
  }

  /** DescendantsIn finds exactly the tagged elements of the forest `cs`. */
  lemma {:induction false} DescendantsInSpec(cs: seq<Element>, tag: string, x: Element)
    ensures x in DescendantsIn(cs, tag) <==> x.tag == tag && InForest(x, cs)
    decreases cs, 0
  {
    if cs != [] {
      DescendantsSpec(cs[0], tag, x);
      DescendantsInSpec(cs[1..], tag, x);
      if x.tag == tag && InForest(x, cs) {
        var i :| 0 <= i < |cs| && (cs[i] == x || Below(x, cs[i]));
        if i > 0 {
          assert cs[1..][i - 1] == cs[i];
          assert InForest(x, cs[1..]);
        }
      }
      if InForest(x, cs[1..]) {
        var i :| 0 <= i < |cs[1..]| && (cs[1..][i] == x || Below(x, cs[1..][i]));
        assert cs[i + 1] == cs[1..][i];
        assert InForest(x, cs);
      }
      if Below(x, cs[0]) {
        assert InForest(x, cs);
      }
    }
  }

  /** `.//T` finds exactly the elements strictly below `e` tagged `T`. */
  lemma {:induction false} DescendantsSpec(e: Element, tag: string, x: Element)
    ensures x in Descendants(e, tag) <==> x.tag == tag && Below(x, e)
    decreases e, 1
  {
    DescendantsInSpec(e.children, tag, x);
  }

  /** ChildrenOfAll finds exactly the `b`-tagged children of the parents `ds`. */
  lemma {:induction false} ChildrenOfAllSpec(ds: seq<Element>, b: string, x: Element)
    ensures x in ChildrenOfAll(ds, b) <==> x.tag == b && exists d :: d in ds && x in d.children
  {
    if ds != [] {
      TaggedSpec(ds[0].children, b);
      ChildrenOfAllSpec(ds[1..], b, x);
      if x.tag == b && exists d :: d in ds && x in d.children {
        var d :| d in ds && x in d.children;
        if d != ds[0] {
          assert d in ds[1..];
        }
      }
      if exists d :: d in ds[1..] && x in d.children {
        var d :| d in ds[1..] && x in d.children;
        assert d in ds;
      }
    }
  }

  /** `.//A/B` finds exactly the `B`-tagged elements whose parent is an
      `A`-tagged element strictly below `e`. */
  lemma ChildPathSpec(e: Element, a: string, b: string, x: Element)
    ensures x in ChildPath(e, a, b) <==>
      x.tag == b && exists d: Element :: d.tag == a && Below(d, e) && x in d.children
  {
    ChildrenOfAllSpec(Descendants(e, a), b, x);
    if exists d: Element :: d.tag == a && Below(d, e) && x in d.children {
      var d: Element :| d.tag == a && Below(d, e) && x in d.children;
      DescendantsSpec(e, a, d);
    }
    if exists d :: d in Descendants(e, a) && x in d.children {
      var d :| d in Descendants(e, a) && x in d.children;
      DescendantsSpec(e, a, d);
    }
  }
}
