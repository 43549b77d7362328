/**
 * One edit directive for the server configuration file (org.wildfly.plugins.Insert):
 * a selector, the content to place under every node it selects (an XML file or an
 * XML string), and optionally the single attribute that identifies the content.
 */
module WildflyInsert {
  import opened JavaLang

  /** The four fields of an Insert, as a value. */
  datatype InsertValue = InsertValue(select: JString, content: Option<File>, xml: JString, attribute: JString)

  const Head: string := "insert [select="
  const ContentTag: string := " content="
  const AttributeTag: string := " attribute="
  const XmlTag: string := " xml="

  /** The text toString() gives: the selector, then each non-null optional field in the order content, attribute, xml. */
  function Render(v: InsertValue): string
  {
    Head + Text(v.select)
    + (if v.content.None? then "" else ContentTag + v.content.value.path)
    + (if v.attribute.None? then "" else AttributeTag + v.attribute.value)
    + (if v.xml.None? then "" else XmlTag + v.xml.value)
    + "]"
  }

  /** s split before its first blank: the blank-free head and the rest (empty, or starting with a blank). */
  function BreakAtBlank(s: string): (r: (string, string))
    ensures r.0 + r.1 == s && ' ' !in r.0
    ensures r.1 == "" || r.1[0] == ' '
  {
    match IndexOf(s, ' ')
    case None => (s, "")
    case Some(i) => (s[..i], s[i..])
  }

  lemma BreakAtBlankOf(x: string, y: string)
    requires ' ' !in x
    requires y == "" || y[0] == ' '
    ensures BreakAtBlank(x + y) == (x, y)
  {
    if y == "" {
      assert x + y == x;
    } else {
      assert x + y == x + [' '] + y[1..];
      IndexOfAfterFree(x, ' ', y[1..]);
      assert (x + y)[..|x|] == x;
      assert (x + y)[|x|..] == y;
    }
  }

  predicate StartsWith(s: string, t: string)
  {
    |t| <= |s| && s[..|t|] == t
  }

  /** An optional " tag=value" part whose value ends at the next blank, and what follows it. */
  function ReadPart(s: string, tag: string): (Option<string>, string)
  {
    if StartsWith(s, tag) then
      var (v, rest) := BreakAtBlank(s[|tag|..]); (Some(v), rest)
    else (None, s)
  }

  /** The optional " xml=" part, which runs to the end. */
  function ReadXml(s: string): (Option<string>, string)
  {
    if StartsWith(s, XmlTag) then (Some(s[|XmlTag|..]), "") else (None, s)
  }

  /** The fields between "insert [select=" and the closing bracket. */
  function ParseBody(body: string): Option<InsertValue>
  {
    var (sel, rest1) := BreakAtBlank(body);
    var (content, rest2) := ReadPart(rest1, ContentTag);
    var (attribute, rest3) := ReadPart(rest2, AttributeTag);
    var (xml, rest4) := ReadXml(rest3);
    if rest4 == "" then
      Some(InsertValue(Some(sel), if content.None? then None else Some(File(content.value)), xml, attribute))
    else None
  }

  /**
   * Reads a rendered insert back. The selector, the content path and the attribute
   * end at the next blank, so they can be recovered only when they hold none; the
   * xml text, last before the closing bracket, may hold anything.
   */
  function Parse(r: string): Option<InsertValue>
  {
    if StartsWith(r, Head) && |r| > |Head| && r[|r| - 1] == ']' then ParseBody(r[|Head|..|r| - 1])
    else None
  }

  /** The fields Parse can recover: no blank before the xml text. */
  predicate Readable(v: InsertValue)
  {
    && ' ' !in Text(v.select)
    && (v.content.Some? ==> ' ' !in v.content.value.path)
    && (v.attribute.Some? ==> ' ' !in v.attribute.value)
  }

  /** The optional part " tag=value" followed by rest reads back as value and rest. */
  lemma ReadPartOf(tag: string, v: Option<string>, rest: string, other: seq<string>)
    requires |tag| >= 2 && tag[0] == ' '
    requires v.Some? ==> ' ' !in v.value
    requires rest == "" || rest[0] == ' '
    requires rest != "" ==> exists t :: t in other && StartsWith(rest, t) && |t| >= 2 && t[1] != tag[1]
    ensures ReadPart((if v.None? then "" else tag + v.value) + rest, tag) == (v, rest)
  {
    var s := (if v.None? then "" else tag + v.value) + rest;
    if v.Some? {
      assert s == tag + (v.value + rest);
      assert s[..|tag|] == tag;
      assert s[|tag|..] == v.value + rest;
      BreakAtBlankOf(v.value, rest);
    } else {
      assert s == rest;
      if rest != "" {
        var t :| t in other && StartsWith(rest, t) && |t| >= 2 && t[1] != tag[1];
        assert rest[1] == rest[..|t|][1] == t[1];
      }
    }
  }

  lemma ReadXmlOf(v: Option<string>)
    ensures ReadXml(if v.None? then "" else XmlTag + v.value) == (v, "")
  {
    if v.Some? {
      var s := XmlTag + v.value;
      assert s[..|XmlTag|] == XmlTag;
      assert s[|XmlTag|..] == v.value;
    }
  }

  /** Parse strips the frame and reads the body. */
  lemma ParseFrame(body: string)
    ensures Parse(Head + body + "]") == ParseBody(body)
  {
    var r := Head + body + "]";
    assert r[..|Head|] == Head;
    assert r[|Head|..|r| - 1] == body;
  }

  /** The body of a rendering reads back field by field. */
  lemma ParseBodyOf(sel: string, c: Option<string>, a: Option<string>, x: Option<string>)
    requires ' ' !in sel
    requires c.Some? ==> ' ' !in c.value
    requires a.Some? ==> ' ' !in a.value
    ensures
      var cPart := if c.None? then "" else ContentTag + c.value;
      var aPart := if a.None? then "" else AttributeTag + a.value;
      var xPart := if x.None? then "" else XmlTag + x.value;
      ParseBody(sel + (cPart + (aPart + xPart)))
        == Some(InsertValue(Some(sel), if c.None? then None else Some(File(c.value)), x, a))
  {
    var cPart := if c.None? then "" else ContentTag + c.value;
    var aPart := if a.None? then "" else AttributeTag + a.value;
    var xPart := if x.None? then "" else XmlTag + x.value;
    ReadXmlOf(x);
    assert xPart != "" ==> StartsWith(xPart, XmlTag) by {
      if xPart != "" { assert xPart[..|XmlTag|] == XmlTag; }
    }
    ReadPartOf(AttributeTag, a, xPart, [XmlTag]);
    var rest2 := aPart + xPart;
    assert rest2 != "" ==> StartsWith(rest2, AttributeTag) || StartsWith(rest2, XmlTag) by {
      if aPart != "" { assert rest2[..|AttributeTag|] == AttributeTag; }
      else { assert rest2 == xPart; }
    }
    assert rest2 != "" ==> exists t :: t in [AttributeTag, XmlTag] && StartsWith(rest2, t) && |t| >= 2 && t[1] != ContentTag[1] by {
      if rest2 != "" {
        if StartsWith(rest2, AttributeTag) { assert AttributeTag in [AttributeTag, XmlTag]; }
        else { assert XmlTag in [AttributeTag, XmlTag]; }
      }
    }
    ReadPartOf(ContentTag, c, rest2, [AttributeTag, XmlTag]);
    var rest1 := cPart + rest2;
    assert rest1 == "" || rest1[0] == ' ';
    BreakAtBlankOf(sel, rest1);
  }

  /** The rendered text determines every field (a null selector reads back as "null"). */
  lemma ParseRender(v: InsertValue)
    requires Readable(v)
    ensures Parse(Render(v)) == Some(v.(select := Some(Text(v.select))))
  {
    var c := if v.content.None? then None else Some(v.content.value.path);
    var cPart := if c.None? then "" else ContentTag + c.value;
    var aPart := if v.attribute.None? then "" else AttributeTag + v.attribute.value;
    var xPart := if v.xml.None? then "" else XmlTag + v.xml.value;
    var body := Text(v.select) + (cPart + (aPart + xPart));
    assert Render(v) == Head + body + "]";
    ParseFrame(body);
    ParseBodyOf(Text(v.select), c, v.attribute, v.xml);
  }

  class Insert {
    var select: JString
    var content: Option<File>
    var xml: JString
    var attribute: JString

    /** The current field values. */
    function Value(): InsertValue
      reads this
    {
      InsertValue(select, content, xml, attribute)
    }

    /** Insert(): every field null. */
    constructor ()
      ensures Value() == InsertValue(None, None, None, None)
    {
      select, content, xml, attribute := None, None, None, None;
    }

    /** Insert(String select, String xml): content and attribute stay null. */
    constructor OfXml(select: JString, xml: JString)
      ensures Value() == InsertValue(select, None, xml, None)
    {
      this.select := select;
      this.xml := xml;
      this.content, this.attribute := None, None;
    }

    /** Insert(String select, File content): xml and attribute stay null. */
    constructor OfContent(select: JString, content: Option<File>)
      ensures Value() == InsertValue(select, content, None, None)
    {
      this.select := select;
      this.content := content;
      this.xml, this.attribute := None, None;
    }

    /** Sets the identity attribute and hands back the same object, for chaining. */
    method WithAttribute(attribute: JString) returns (r: Insert)
      modifies this
      ensures r == this
      ensures Value() == old(Value()).(attribute := attribute)
    {
      this.attribute := attribute;
      r := this;
    }

    function GetAttribute(): JString reads this { attribute }
    function GetXml(): JString reads this { xml }
    function GetSelect(): JString reads this { select }
    function GetContent(): Option<File> reads this { content }

    method SetAttribute(attribute: JString)
      modifies this
      ensures GetAttribute() == attribute
      ensures Value() == old(Value()).(attribute := attribute)
    {
      this.attribute := attribute;
    }

    method SetXml(xml: JString)
      modifies this
      ensures GetXml() == xml
      ensures Value() == old(Value()).(xml := xml)
    {
      this.xml := xml;
    }

    method SetSelect(select: JString)
      modifies this
      ensures GetSelect() == select
      ensures Value() == old(Value()).(select := select)
    {
      this.select := select;
    }

    method SetContent(content: Option<File>)
      modifies this
      ensures GetContent() == content
      ensures Value() == old(Value()).(content := content)
    {
      this.content := content;
    }

    /**
     * toString(): always opens with "insert [select=" and the selector's text and
     * closes with "]"; when no field but the xml holds a blank, the text can be
     * read back into the fields, so the optional parts stand in the fixed order
     * content, attribute, xml.
     */
    function ToString(): (r: string)
      reads this
      ensures StartsWith(r, Head + Text(select)) && r[|r| - 1] == ']'
      ensures Readable(Value()) ==> Parse(r) == Some(Value().(select := Some(Text(select))))
    {
      var r := Render(Value());
      assert r[..|Head + Text(select)|] == Head + Text(select);
      if Readable(Value()) then ParseRender(Value()); r else r
    }
  }
}
