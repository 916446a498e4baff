/** The document trees both parsers hand to the converter: the lxml elements of
    the export file and the BeautifulSoup tags of a post's HTML body. Both are
    modelled as ordered trees of text and element nodes. */
module Markup {
  import opened Wrappers
  import opened Text

  /** A text node, or an element with its tag (`{uri}local` or `local` as lxml
      spells it, the tag name for HTML), its attributes in order and its
      children. */
  datatype Node =
    | TextNode(content: string)
    | Element(tag: string, attrs: seq<(string, string)>, children: seq<Node>)

  /** `elem.iter()`: the element, then every descendant element, in document order. */
  function Iter(n: Node): (r: seq<Node>)
    ensures forall x :: x in r ==> x.Element?
    ensures n.Element? ==> |r| >= 1 && r[0] == n
    ensures n.TextNode? ==> r == []
    decreases n, 1
  {
    if n.TextNode? then [] else [n] + IterAll(n.children)
  }

  /** The elements of a forest and all their descendant elements, in document order. */
  function IterAll(ns: seq<Node>): (r: seq<Node>)
    ensures forall x :: x in r ==> x.Element?
    decreases ns, 0
  {
    if ns == [] then [] else Iter(ns[0]) + IterAll(ns[1..])
  }

  /** The descendant elements of `n` (not `n` itself), in document order. */
  function Descendants(n: Node): (r: seq<Node>)
    requires n.Element?
    ensures Iter(n) == [n] + r
  {
    IterAll(n.children)
  }

  /** lxml's `elem.text`: the text before the first child element, None when there is none. */
  function ElemText(n: Node): Option<string>
    requires n.Element?
  {
    if n.children != [] && n.children[0].TextNode? then Some(n.children[0].content) else None
  }

  /** `elem.text or ""`. */
  function TextOf(n: Node): string
    requires n.Element?
  {
    ElemText(n).GetOr("")
  }

  /** Python's truth value of `elem.text`: present and non-empty. */
  predicate HasText(n: Node)
    requires n.Element?
  {
    TextOf(n) != ""
  }

  /** `tag.get(name)`. */
  function GetAttr(attrs: seq<(string, string)>, name: string): (r: Option<string>)
    ensures r.Some? <==> exists i :: 0 <= i < |attrs| && attrs[i].0 == name
    ensures r.Some? ==> (name, r.value) in attrs
    decreases |attrs|
  {
    if attrs == [] then None
    else if attrs[0].0 == name then Some(attrs[0].1)
    else GetAttr(attrs[1..], name)
  }

  /** `tag[name] = value`: an existing attribute keeps its place, a new one goes last. */
  function SetAttr(attrs: seq<(string, string)>, name: string, value: string): (r: seq<(string, string)>)
    ensures GetAttr(r, name) == Some(value)
    ensures forall n :: n != name ==> GetAttr(r, n) == GetAttr(attrs, n)
    ensures forall a :: a in r ==> a in attrs || a == (name, value)
    decreases |attrs|
  {
    if attrs == [] then [(name, value)]
    else if attrs[0].0 == name then [(name, value)] + attrs[1..]
    else [attrs[0]] + SetAttr(attrs[1..], name, value)
  }

  /** `tag.attrs.pop(name, None)`: every attribute called `name` goes, the rest keep their order. */
  function DropAttr(attrs: seq<(string, string)>, name: string): (r: seq<(string, string)>)
    ensures GetAttr(r, name).None?
    ensures forall n :: n != name ==> GetAttr(r, n) == GetAttr(attrs, n)
    ensures forall a :: a in r ==> a in attrs
    decreases |attrs|
  {
    if attrs == [] then []
    else if attrs[0].0 == name then DropAttr(attrs[1..], name)
    else [attrs[0]] + DropAttr(attrs[1..], name)
  }

  /** Every element of the forest, at any depth, satisfies `p`. */
  predicate Every(ns: seq<Node>, p: Node -> bool)
    decreases ns
  {
    ns == [] ||
    ((ns[0].Element? ==> p(ns[0]) && Every(ns[0].children, p)) && Every(ns[1..], p))
  }

  /** `Every` says the same as "every element `find_all()` returns satisfies `p`". */
  lemma {:induction false} EveryIterAll(ns: seq<Node>, p: Node -> bool)
    ensures Every(ns, p) <==> forall x :: x in IterAll(ns) ==> p(x)
    decreases ns
  {
    if ns != [] {
      EveryIterAll(ns[1..], p);
      if ns[0].Element? {
        EveryIterAll(ns[0].children, p);
        assert Iter(ns[0]) == [ns[0]] + IterAll(ns[0].children);
      }
      assert IterAll(ns) == Iter(ns[0]) + IterAll(ns[1..]);
    }
  }

  /** The forest's text nodes in document order. */
  function Texts(ns: seq<Node>): seq<string>
    decreases ns
  {
    if ns == [] then []
    else
      var first := match ns[0]
        case TextNode(c) => [c]
        case Element(_, _, children) => Texts(children);
      first + Texts(ns[1..])
  }

  /** Unfolding `Every` on a forest built from its first tree and the rest. */
  lemma EveryCons(n: Node, rest: seq<Node>, p: Node -> bool)
    ensures Every([n] + rest, p) <==> (n.Element? ==> p(n) && Every(n.children, p)) && Every(rest, p)
  {
    assert ([n] + rest)[0] == n && ([n] + rest)[1..] == rest;
  }

  /** A property of every element implies its consequences for every element. */
  lemma {:induction false} EveryImplies(ns: seq<Node>, p: Node -> bool, q: Node -> bool)
    requires Every(ns, p)
    requires forall x :: p(x) ==> q(x)
    ensures Every(ns, q)
    decreases ns
  {
    if ns != [] {
      EveryImplies(ns[1..], p, q);
      if ns[0].Element? {
        EveryImplies(ns[0].children, p, q);
      }
    }
  }
}
