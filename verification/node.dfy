/** The tree of dom_node.php: the root container, leaves holding one entity, and
    elements (void or with body).  A script/style body is stored by the source as
    a bare PHP string among an element's children; `Raw` stands for it. */
module Nodes {
  import opened Util
  import opened Entities

  datatype ElementKind = Void | WithBody

  datatype Node =
    | Root(children: seq<Node>)
    | Leaf(entity: Entity, children: seq<Node>)
    | Element(tagName: string, attributes: seq<Attribute>, kind: ElementKind, children: seq<Node>)
    | Raw(text: string)

  /** `implode('', $parts)` */
  function Flatten(parts: seq<string>): (r: string)
    ensures |parts| == 0 ==> r == ""
  {
    if |parts| == 0 then "" else Flatten(parts[..|parts| - 1]) + parts[|parts| - 1]
  }

  /** `str_repeat("\t", $depth)` */
  function Tabs(depth: nat): (r: string)
    ensures |r| == depth && forall i :: 0 <= i < depth ==> r[i] == '\t'
  {
    if depth == 0 then "" else Tabs(depth - 1) + "\t"
  }

  /** `add`: append a child; everything else about the node stays as it was.  Only
      node objects have it, and only node objects can be added. */
  function Add(n: Node, child: Node): (r: Node)
    requires !n.Raw? && !child.Raw?
    ensures !r.Raw? && r.children == n.children + [child]
    ensures r.(children := n.children) == n
  {
    n.(children := n.children + [child])
  }

  /** `countChildren` */
  function CountChildren(n: Node): nat
    requires !n.Raw?
  {
    |n.children|
  }

  /** PHP falsiness of a child: node objects are always truthy, a raw string child is
      falsy when it is `""` or `"0"`. */
  predicate Falsy(n: Node) {
    n.Raw? && (n.text == "" || n.text == "0")
  }

  /** `getFirstChild`: the first child, or `null` when there is none (or it is falsy). */
  function FirstChild(n: Node): (r: Option<Node>)
    requires !n.Raw?
    ensures |n.children| == 0 ==> r.None?
    ensures |n.children| > 0 ==> (r.None? <==> Falsy(n.children[0]))
    ensures r.Some? ==> r.value == n.children[0]
  {
    if |n.children| == 0 || Falsy(n.children[0]) then None else Some(n.children[0])
  }

  /** `getLastChild`: the last child, or `null` when there is none (or it is falsy). */
  function LastChild(n: Node): (r: Option<Node>)
    requires !n.Raw?
    ensures |n.children| == 0 ==> r.None?
    ensures |n.children| > 0 ==> (r.None? <==> Falsy(n.children[|n.children| - 1]))
    ensures r.Some? ==> r.value == n.children[|n.children| - 1]
  {
    if |n.children| == 0 || Falsy(n.children[|n.children| - 1]) then None
    else Some(n.children[|n.children| - 1])
  }

  /** The three `__toString`s: the root concatenates its children; a leaf is its
      entity's text; an element is its start tag, and, with a body, its children
      and a synthesised `</tagName>`.  A raw body is its text. */
  function ToString(n: Node): string
    decreases n
  {
    match n
    case Root(cs) => Flatten(seq(|cs|, i requires 0 <= i < |cs| => ToString(cs[i])))
    case Leaf(e, _) => Render(e)
    case Element(t, attrs, kind, cs) =>
      StartTagText(t, attrs)
      + (if kind == Void then ""
         else Flatten(seq(|cs|, i requires 0 <= i < |cs| => ToString(cs[i]))) + EndTagText(t))
    case Raw(t) => t
  }

  /** The serialisations of a list of siblings, in order. */
  function Texts(cs: seq<Node>): (r: seq<string>)
    ensures |r| == |cs| && forall i :: 0 <= i < |cs| ==> r[i] == ToString(cs[i])
  {
    seq(|cs|, i requires 0 <= i < |cs| => ToString(cs[i]))
  }

  /** A with-body element whose one child is not itself a with-body element is
      printed on one line. */
  predicate PrintsInline(cs: seq<Node>) {
    |cs| == 1 && !(cs[0].Element? && cs[0].kind == WithBody)
  }

  /** The three `pretty_print`s.  The root prints each child at depth 0 followed by a
      newline.  A leaf or element prints `depth` tabs and its entity; a with-body
      element then prints its one non-with-body child inline, or else each child on
      a new line one level deeper and the closer on a new line at `depth`.  (The
      source has no pretty printer for a raw string; it is only ever printed inline.) */
  function PrettyPrint(n: Node, depth: nat): string
    decreases n
  {
    match n
    case Root(cs) => Flatten(seq(|cs|, i requires 0 <= i < |cs| => PrettyPrint(cs[i], 0) + "\n"))
    case Leaf(e, _) => Tabs(depth) + Render(e)
    case Element(t, attrs, kind, cs) =>
      Tabs(depth) + StartTagText(t, attrs)
      + (if kind == Void then ""
         else if PrintsInline(cs) then ToString(cs[0]) + EndTagText(t)
         else Flatten(seq(|cs|, i requires 0 <= i < |cs| => "\n" + PrettyPrint(cs[i], depth + 1)))
              + "\n" + Tabs(depth) + EndTagText(t))
    case Raw(t) => Tabs(depth) + t
  }

  // ---------------------------------------------------------------------------
  // Properties
  // ---------------------------------------------------------------------------

  lemma FlattenSnoc(parts: seq<string>, p: string)
    ensures Flatten(parts + [p]) == Flatten(parts) + p
  {
    assert (parts + [p])[..|parts|] == parts;
  }

  /** The serialisation of each kind of node, stated against the siblings' texts. */
  lemma Serialization(n: Node)
    ensures n.Root? ==> ToString(n) == Flatten(Texts(n.children))
    ensures n.Leaf? ==> ToString(n) == Render(n.entity)
    ensures n.Element? && n.kind == Void ==> ToString(n) == StartTagText(n.tagName, n.attributes)
    ensures n.Element? && n.kind == WithBody ==>
      ToString(n) == StartTagText(n.tagName, n.attributes) + Flatten(Texts(n.children)) + "</" + n.tagName + ">"
  {
  }

  /** Adding a child to the root or to a with-body element appends the child's text
      to the body; on a leaf or a void element, whose children are never printed,
      the text does not change. */
  lemma AddSerialization(n: Node, c: Node)
    requires !n.Raw? && !c.Raw?
    ensures n.Root? ==> ToString(Add(n, c)) == ToString(n) + ToString(c)
    ensures n.Element? && n.kind == WithBody ==>
      ToString(Add(n, c)) == StartTagText(n.tagName, n.attributes) + Flatten(Texts(n.children))
                             + ToString(c) + EndTagText(n.tagName)
    ensures n.Leaf? || (n.Element? && n.kind == Void) ==> ToString(Add(n, c)) == ToString(n)
  {
    var cs := n.children;
    assert Texts(cs + [c]) == Texts(cs) + [ToString(c)];
    FlattenSnoc(Texts(cs), ToString(c));
  }

  /** Adding a child makes it the last child and raises the count by one. */
  lemma AddLast(n: Node, c: Node)
    requires !n.Raw? && !c.Raw?
    ensures CountChildren(Add(n, c)) == CountChildren(n) + 1
    ensures LastChild(Add(n, c)) == Some(c)
    ensures |n.children| > 0 ==> FirstChild(Add(n, c)) == FirstChild(n)
  {
  }

  /** A leaf or element printed at depth `d` starts with exactly `d` tabs, followed by
      its entity text (for an element, its start tag). */
  lemma PrettyIndent(n: Node, d: nat)
    requires n.Leaf? || n.Element?
    ensures var s := PrettyPrint(n, d);
      var head := if n.Leaf? then Render(n.entity) else StartTagText(n.tagName, n.attributes);
      |s| >= d + |head| && s[..d] == Tabs(d) && s[d..d + |head|] == head
  {
  }

  /** The three layouts of a with-body element at depth `d`: inline for one child that
      is not a with-body element; otherwise one line per child one level deeper and
      the closer on its own line, so no children give start tag, newline, `d` tabs,
      closer. */
  lemma PrettyLayouts(n: Node, d: nat)
    requires n.Element? && n.kind == WithBody
    ensures PrintsInline(n.children) ==>
      PrettyPrint(n, d) == Tabs(d) + StartTagText(n.tagName, n.attributes) + ToString(n.children[0]) + EndTagText(n.tagName)
    ensures |n.children| == 0 ==>
      PrettyPrint(n, d) == Tabs(d) + StartTagText(n.tagName, n.attributes) + "\n" + Tabs(d) + EndTagText(n.tagName)
    ensures !PrintsInline(n.children) ==>
      PrettyPrint(n, d) == Tabs(d) + StartTagText(n.tagName, n.attributes)
        + Flatten(seq(|n.children|, i requires 0 <= i < |n.children| => "\n" + PrettyPrint(n.children[i], d + 1)))
        + "\n" + Tabs(d) + EndTagText(n.tagName)
  {
  }

  /** The text with every tab and newline removed. */
  function Strip(s: string): (r: string)
    ensures |r| <= |s|
  {
    if |s| == 0 then ""
    else (if s[0] == '\t' || s[0] == '\n' then "" else [s[0]]) + Strip(s[1..])
  }

  /** Stripping distributes over concatenation. */
  lemma {:induction false} StripAppend(a: string, b: string)
    ensures Strip(a + b) == Strip(a) + Strip(b)
  {
    if |a| == 0 {
      assert a + b == b;
    } else {
      var h := if a[0] == '\t' || a[0] == '\n' then "" else [a[0]];
      assert (a + b)[0] == a[0];
      assert (a + b)[1..] == a[1..] + b;
      assert Strip(a + b) == h + Strip(a[1..] + b);
      assert Strip(a) == h + Strip(a[1..]);
      StripAppend(a[1..], b);
    }
  }

  lemma {:induction false} StripTabs(d: nat)
    ensures Strip(Tabs(d)) == ""
  {
    if d > 0 {
      StripAppend(Tabs(d - 1), "\t");
      StripTabs(d - 1);
    }
  }

  /** Concatenations of lists whose items strip to the same text strip to the same text. */
  lemma {:induction false} StripFlatten(xs: seq<string>, ys: seq<string>)
    requires |xs| == |ys| && forall i :: 0 <= i < |xs| ==> Strip(xs[i]) == Strip(ys[i])
    ensures Strip(Flatten(xs)) == Strip(Flatten(ys))
  {
    if |xs| > 0 {
      var k := |xs| - 1;
      StripFlatten(xs[..k], ys[..k]);
      StripAppend(Flatten(xs[..k]), xs[k]);
      StripAppend(Flatten(ys[..k]), ys[k]);
    }
  }

  /** With tabs and newlines removed, a node whose children keep their text when
      pretty-printed at `k` keeps its own text: the case analysis of the theorem
      below, one level deep. */
  lemma RootKeepsText(cs: seq<Node>)
    requires forall i :: 0 <= i < |cs| ==> Strip(PrettyPrint(cs[i], 0)) == Strip(ToString(cs[i]))
    ensures Strip(PrettyPrint(Root(cs), 0)) == Strip(ToString(Root(cs)))
  {
    var xs := seq(|cs|, i requires 0 <= i < |cs| => PrettyPrint(cs[i], 0) + "\n");
    forall i | 0 <= i < |cs|
      ensures Strip(xs[i]) == Strip(Texts(cs)[i])
    {
      StripAppend(PrettyPrint(cs[i], 0), "\n");
    }
    StripFlatten(xs, Texts(cs));
  }

  lemma FlatKeepsText(n: Node, d: nat)
    requires n.Leaf? || n.Raw? || (n.Element? && (n.kind == Void || PrintsInline(n.children)))
    ensures Strip(PrettyPrint(n, d)) == Strip(ToString(n))
  {
    StripTabs(d);
    match n
    case Leaf(e, _) =>
      StripAppend(Tabs(d), Render(e));
    case Raw(t) =>
      StripAppend(Tabs(d), t);
    case Element(t, attrs, kind, cs) =>
      var start := StartTagText(t, attrs);
      StripAppend(Tabs(d), start);
      if kind == Void {
        assert Tabs(d) + start + "" == Tabs(d) + start;
        assert start + "" == start;
      } else {
        var close := EndTagText(t);
        assert Texts(cs) == [] + [ToString(cs[0])];
        assert ToString(n) == start + (ToString(cs[0]) + close);
        assert PrettyPrint(n, d) == Tabs(d) + start + (ToString(cs[0]) + close);
        StripAppend(start, ToString(cs[0]) + close);
        StripAppend(Tabs(d) + start, ToString(cs[0]) + close);
      }
  }

  /** Text that strips to nothing can be dropped from the front. */
  lemma StripDropsLayout(a: string, b: string)
    requires Strip(a) == ""
    ensures Strip(a + b) == Strip(b)
  {
    StripAppend(a, b);
    assert "" + Strip(b) == Strip(b);
  }

  /** The string arithmetic of the block layout, apart from the tree: `nl` is the
      newline and `tabs` the indentation, both pure layout. */
  lemma BlockLayoutText(tabs: string, nl: string, start: string, lines: string, body: string, close: string)
    requires Strip(tabs) == "" && Strip(nl) == "" && Strip(lines) == Strip(body)
    ensures Strip((tabs + start) + (lines + (nl + tabs + close))) == Strip(start + (body + close))
  {
    var tail := nl + tabs + close;
    calc {
      Strip((tabs + start) + (lines + tail));
    == { StripAppend(tabs + start, lines + tail); }
      Strip(tabs + start) + Strip(lines + tail);
    == { StripDropsLayout(tabs, start); }
      Strip(start) + Strip(lines + tail);
    == { StripAppend(lines, tail); }
      Strip(start) + (Strip(lines) + Strip(tail));
    == { StripDropsLayout(nl, tabs); StripDropsLayout(nl + tabs, close); }
      Strip(start) + (Strip(body) + Strip(close));
    == { StripAppend(body, close); }
      Strip(start) + Strip(body + close);
    == { StripAppend(start, body + close); }
      Strip(start + (body + close));
    }
  }

  lemma BlockKeepsText(n: Node, d: nat)
    requires n.Element? && n.kind == WithBody && !PrintsInline(n.children)
    requires forall i :: 0 <= i < |n.children| ==>
      Strip(PrettyPrint(n.children[i], d + 1)) == Strip(ToString(n.children[i]))
    ensures Strip(PrettyPrint(n, d)) == Strip(ToString(n))
  {
    var cs := n.children;
    var start := StartTagText(n.tagName, n.attributes);
    var close := EndTagText(n.tagName);
    var xs := seq(|cs|, i requires 0 <= i < |cs| => "\n" + PrettyPrint(cs[i], d + 1));
    forall i | 0 <= i < |cs|
      ensures Strip(xs[i]) == Strip(Texts(cs)[i])
    {
      StripAppend("\n", PrettyPrint(cs[i], d + 1));
    }
    StripFlatten(xs, Texts(cs));
    StripTabs(d);
    assert Strip("\n") == "";
    assert ToString(n) == start + (Flatten(Texts(cs)) + close);
    assert PrettyPrint(n, d) == (Tabs(d) + start) + (Flatten(xs) + ("\n" + Tabs(d) + close));
    BlockLayoutText(Tabs(d), "\n", start, Flatten(xs), Flatten(Texts(cs)), close);
  }

  /** Pretty-printing only adds layout: with tabs and newlines removed, the
      pretty-printed text of any node equals its exact serialisation. */
  lemma {:induction false} PrettyPrintKeepsText(n: Node, d: nat)
    ensures Strip(PrettyPrint(n, d)) == Strip(ToString(n))
    decreases n
  {
    if n.Root? {
      forall i | 0 <= i < |n.children|
        ensures Strip(PrettyPrint(n.children[i], 0)) == Strip(ToString(n.children[i]))
      {
        PrettyPrintKeepsText(n.children[i], 0);
      }
      RootKeepsText(n.children);
    } else if n.Element? && n.kind == WithBody && !PrintsInline(n.children) {
      forall i | 0 <= i < |n.children|
        ensures Strip(PrettyPrint(n.children[i], d + 1)) == Strip(ToString(n.children[i]))
      {
        PrettyPrintKeepsText(n.children[i], d + 1);
      }
      BlockKeepsText(n, d);
    } else {
      FlatKeepsText(n, d);
    }
  }

  /** The root's pretty print is each child's pretty print at depth 0 plus a newline. */
  lemma RootPrettyPrint(cs: seq<Node>, c: Node)
    ensures PrettyPrint(Root([]), 0) == ""
    ensures PrettyPrint(Root(cs + [c]), 0) == PrettyPrint(Root(cs), 0) + PrettyPrint(c, 0) + "\n"
  {
    var xs := seq(|cs|, i requires 0 <= i < |cs| => PrettyPrint(cs[i], 0) + "\n");
    var ys := seq(|cs| + 1, i requires 0 <= i < |cs| + 1 => PrettyPrint((cs + [c])[i], 0) + "\n");
    assert ys == xs + [PrettyPrint(c, 0) + "\n"];
    FlattenSnoc(xs, PrettyPrint(c, 0) + "\n");
  }
}
