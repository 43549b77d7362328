/**
 * A small model of a parsed XML element: its qualified name, its namespace
 * URI ("" when it has none), its attributes in document order and its child
 * elements in document order. Text nodes and comments are not modelled.
 */
module XmlTree {

  datatype Attribute = Attribute(name: string, value: string)

  datatype Element = Element(name: string, namespace: string, attributes: seq<Attribute>, children: seq<Element>)

  /** Whether the element carries an attribute of that name. */
  predicate HasAttribute(e: Element, name: string)
  {
    exists i :: 0 <= i < |e.attributes| && e.attributes[i].name == name
  }

  /** Index of the first attribute of that name. */
  function AttributeIndex(attrs: seq<Attribute>, name: string): (r: nat)
    ensures r <= |attrs|
    ensures forall i :: 0 <= i < r ==> attrs[i].name != name
    ensures r < |attrs| ==> attrs[r].name == name
  {
    if |attrs| == 0 then 0
    else if attrs[0].name == name then 0
    else 1 + AttributeIndex(attrs[1..], name)
  }

  /**
   * Element.getAttribute of the DOM: the value of the attribute of that name,
   * or the empty string when the element has none.
   */
  function GetAttribute(e: Element, name: string): (r: string)
    ensures !HasAttribute(e, name) ==> r == ""
    ensures HasAttribute(e, name) ==>
      exists i :: 0 <= i < |e.attributes| && e.attributes[i] == Attribute(name, r)
  {
    var i := AttributeIndex(e.attributes, name);
    if i < |e.attributes| then e.attributes[i].value else ""
  }
}
