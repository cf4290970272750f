/**
 * The part of an lxml element tree that the PrairieView reader looks at: a tag,
 * attributes in document order and child elements in document order.
 */
module Xml {
  import opened Wrappers

  datatype Attribute = Attribute(name: string, value: string)

  datatype Element = Element(tag: string, attributes: seq<Attribute>, children: seq<Element>)

  /** `name in attrs`: some attribute carries the name. */
  predicate HasName(attrs: seq<Attribute>, name: string) {
    exists i | 0 <= i < |attrs| :: attrs[i].name == name
  }

  /** The value of the first attribute with the given name (XML allows only one). */
  function Lookup(attrs: seq<Attribute>, name: string): (r: Option<string>)
    ensures r.Some? <==> HasName(attrs, name)
    ensures r.Some? ==> exists i | 0 <= i < |attrs| :: attrs[i] == Attribute(name, r.value)
  {
    if attrs == [] then None
    else if attrs[0].name == name then Some(attrs[0].value)
    else
      assert forall i | 0 <= i < |attrs| - 1 :: attrs[1..][i] == attrs[i + 1];
      Lookup(attrs[1..], name)
  }

  /** `element.get(name)`: the attribute's value, or `None` when it is absent. */
  function Get(e: Element, name: string): Option<string> {
    Lookup(e.attributes, name)
  }

  /** `element.get(name, fallback)`. */
  function GetOr(e: Element, name: string, fallback: string): (r: string)
    ensures Get(e, name).Some? ==> r == Get(e, name).value
    ensures Get(e, name).None? ==> r == fallback
  {
    match Get(e, name)
    case Some(v) => v
    case None => fallback
  }

  /** `name in element.attrib`. */
  predicate Has(e: Element, name: string) {
    HasName(e.attributes, name)
  }

  /** `element.findall(tag)` over a list of children: those with the tag, in order. */
  function FindAll(elements: seq<Element>, tag: string): (r: seq<Element>)
    ensures |r| <= |elements|
    ensures forall x | x in r :: x.tag == tag && x in elements
    ensures forall x | x in elements && x.tag == tag :: x in r
  {
    if elements == [] then []
    else if elements[0].tag == tag then [elements[0]] + FindAll(elements[1..], tag)
    else FindAll(elements[1..], tag)
  }

  /** `element.find(tag)`: the first child with the tag, or `None`. */
  function Find(e: Element, tag: string): (r: Option<Element>)
    ensures r.Some? ==> r.value.tag == tag && r.value in e.children
    ensures r.None? ==> forall x | x in e.children :: x.tag != tag
  {
    var found := FindAll(e.children, tag);
    if found == [] then None else Some(found[0])
  }

  /** `find` answers the first of the elements `findall` lists. */
  lemma {:induction false} FindIsFirstOfFindAll(elements: seq<Element>, tag: string)
    ensures FindAll(elements, tag) != [] <==> exists i | 0 <= i < |elements| :: elements[i].tag == tag
    ensures FindAll(elements, tag) != [] ==>
      exists i | 0 <= i < |elements| ::
        FindAll(elements, tag)[0] == elements[i] && elements[i].tag == tag
        && forall j | 0 <= j < i :: elements[j].tag != tag
  {
    if elements == [] {
    } else if elements[0].tag == tag {
      assert FindAll(elements, tag)[0] == elements[0];
    } else {
      var rest := elements[1..];
      FindIsFirstOfFindAll(rest, tag);
      assert FindAll(elements, tag) == FindAll(rest, tag);
      if FindAll(rest, tag) != [] {
        var i :| 0 <= i < |rest| && FindAll(rest, tag)[0] == rest[i]
          && rest[i].tag == tag && forall j | 0 <= j < i :: rest[j].tag != tag;
        assert elements[i + 1] == rest[i];
        forall j | 0 <= j < i + 1
          ensures elements[j].tag != tag
        {
          if j > 0 {
            assert elements[j] == rest[j - 1];
          }
        }
      } else {
        forall i | 0 <= i < |elements|
          ensures elements[i].tag != tag
        {
          if i > 0 {
            assert elements[i] == rest[i - 1];
          }
        }
      }
    }
  }
}
