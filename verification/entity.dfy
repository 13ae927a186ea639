/** The lexical values of dom_entity.php and their fixed renderings back to text. */
module Entities {
  import opened Util

  /** `dom_tag_attribute`: a name and a value, the value `false` (None) when absent.
      A quoted value keeps its quote characters. */
  datatype Attribute = Attribute(name: string, value: Option<string>)

  /** One top-level item of a doctype: a bare token, or `name = value` written with
      white space around `=`, which the source stores as an attribute. */
  datatype DoctypeItem = Token(text: string) | Assignment(attr: Attribute)

  /** The variants of `dom_entity`, tagged as the class constants are. */
  datatype Entity =
    | Doctype(items: seq<DoctypeItem>)
    | StartTag(tagName: string, attributes: seq<Attribute>)
    | EndTag(tagName: string)
    | Comment(cdata: string)
    | Php(cdata: string)
    | Ruby(cdata: string)
    | Text(text: string)

  /** `implode($sep, $parts)` */
  function Join(parts: seq<string>, sep: string): (r: string)
    ensures |parts| == 0 ==> r == ""
    ensures |parts| == 1 ==> r == parts[0]
  {
    if |parts| == 0 then ""
    else if |parts| == 1 then parts[0]
    else Join(parts[..|parts| - 1], sep) + sep + parts[|parts| - 1]
  }

  /** `dom_tag_attribute::__toString`: `name`, or `name=value` with the value verbatim. */
  function AttributeText(a: Attribute): (r: string)
    ensures a.value.None? ==> r == a.name
    ensures a.value.Some? ==> r == a.name + "=" + a.value.value
  {
    a.name + (if a.value.None? then "" else "=" + a.value.value)
  }

  function AttributeTexts(attrs: seq<Attribute>): (r: seq<string>)
    ensures |r| == |attrs|
    ensures forall i :: 0 <= i < |attrs| ==> r[i] == AttributeText(attrs[i])
  {
    seq(|attrs|, i requires 0 <= i < |attrs| => AttributeText(attrs[i]))
  }

  function DoctypeItemText(d: DoctypeItem): string {
    match d
    case Token(t) => t
    case Assignment(a) => AttributeText(a)
  }

  function DoctypeItemTexts(items: seq<DoctypeItem>): (r: seq<string>)
    ensures |r| == |items|
    ensures forall i :: 0 <= i < |items| ==> r[i] == DoctypeItemText(items[i])
  {
    seq(|items|, i requires 0 <= i < |items| => DoctypeItemText(items[i]))
  }

  /** `dom_entity_start_tag::__toString` */
  function StartTagText(tagName: string, attrs: seq<Attribute>): string {
    "<" + tagName + (if |attrs| == 0 then "" else " " + Join(AttributeTexts(attrs), " ")) + ">"
  }

  /** `dom_entity_end_tag::__toString` */
  function EndTagText(tagName: string): string {
    "</" + tagName + ">"
  }

  /** `__toString` of every entity class. */
  function Render(e: Entity): string {
    match e
    case Doctype(items) => "<!DOCTYPE " + Join(DoctypeItemTexts(items), " ") + ">"
    case StartTag(name, attrs) => StartTagText(name, attrs)
    case EndTag(name) => EndTagText(name)
    case Comment(t) => "<!--" + t + "-->"
    case Php(t) => "<?php" + t + "?>"
    case Ruby(t) => "<%=" + t + "%>"
    case Text(t) => t
  }

  /** Appending one more part to a non-empty list adds the separator and the part. */
  lemma JoinSnoc(parts: seq<string>, p: string, sep: string)
    requires |parts| > 0
    ensures Join(parts + [p], sep) == Join(parts, sep) + sep + p
  {
    assert (parts + [p])[..|parts|] == parts;
  }

  /** Joining never drops text: the result is as long as the parts plus one separator
      between each neighbouring pair. */
  lemma {:induction false} JoinLength(parts: seq<string>, sep: string)
    ensures |Join(parts, sep)| == SumLengths(parts) + (if |parts| == 0 then 0 else (|parts| - 1) * |sep|)
  {
    if |parts| > 1 {
      var init := parts[..|parts| - 1];
      JoinLength(init, sep);
      var n := |init|;
      MulStep(n, |sep|);
      assert |Join(parts, sep)| == |Join(init, sep)| + |sep| + |parts[n]|;
    }
  }

  lemma MulStep(n: int, x: int)
    ensures (n - 1) * x + x == n * x
  {
  }

  function SumLengths(parts: seq<string>): nat {
    if |parts| == 0 then 0 else SumLengths(parts[..|parts| - 1]) + |parts[|parts| - 1]|
  }
}
