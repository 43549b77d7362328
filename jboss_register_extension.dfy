/**
 * The XSLT-based registration (org.jboss.plugins.RegisterExtension): the text
 * of the XPath name predicate and of the stylesheet that copies the server
 * configuration while adding the extension, the subsystem and the socket
 * binding. What the XSLT processor then does with the text is not modelled.
 */
module JbossRegisterExtension {
  import opened JavaLang
  import opened XmlTree
  import opened JbossRegisterOptions

  /** A parsed document: its root element and the text doc2string gives for it. */
  datatype Document = Document(root: Element, serialized: string)

  /** A standalone configuration is one whose root element is named server. */
  predicate IsStandaloneXml(doc: Document)
  {
    doc.root.name == "server"
  }

  /** The namespace declared on the root: null for no document, "" when undeclared. */
  function GetNameSpace(doc: Option<Document>): (r: JString)
    ensures doc.None? <==> r.None?
    ensures doc.Some? && !HasAttribute(doc.value.root, "xmlns") ==> r == Some("")
    ensures doc.Some? && HasAttribute(doc.value.root, "xmlns") ==>
      exists i :: 0 <= i < |doc.value.root.attributes|
        && doc.value.root.attributes[i] == Attribute("xmlns", r.value)
  {
    if doc.None? then None else Some(GetAttribute(doc.value.root, "xmlns"))
  }

  // ---------------------------------------------------------------- name selector

  const Or: string := " or "

  /** The test of one name: @name='n' (a null name reads "null"). */
  function NameTerm(name: JString): string
  {
    "@name='" + Text(name) + "'"
  }

  function NameTerms(names: seq<JString>): (r: seq<string>)
    ensures |r| == |names|
    ensures forall i :: 0 <= i < |names| ==> r[i] == NameTerm(names[i])
  {
    seq(|names|, i requires 0 <= i < |names| => NameTerm(names[i]))
  }

  /**
   * The XPath predicate matching any of the names: empty for a null or empty
   * array, otherwise the name tests joined by " or " inside brackets.
   */
  function NameSelector(names: JStringArray): string
  {
    if names.None? || |names.value| == 0 then ""
    else "[" + Join(Or, NameTerms(names.value)) + "]"
  }

  lemma NameTermsSnoc(names: seq<JString>, name: JString)
    ensures NameTerms(names + [name]) == NameTerms(names) + [NameTerm(name)]
  {
    var l, r := NameTerms(names + [name]), NameTerms(names) + [NameTerm(name)];
    assert |l| == |r|;
    forall i | 0 <= i < |l| ensures l[i] == r[i] {
      if i < |names| { assert (names + [name])[i] == names[i]; }
    }
  }

  /** What one loop step appends: a name test followed by " or ". */
  lemma TermThenOr(sb: string, done: string, name: JString)
    requires sb == "[" + done
    ensures sb + ("@name='" + Text(name) + "' or ") == "[" + (done + NameTerm(name) + Or)
  {
    assert "' or " == "'" + Or;
  }

  /** Every string of ts followed by sep, the way the loop appends them. */
  function Suffixed(ts: seq<string>, sep: string): string
  {
    if |ts| == 0 then "" else Suffixed(ts[..|ts| - 1], sep) + ts[|ts| - 1] + sep
  }

  lemma {:induction false} SuffixedJoin(ts: seq<string>, sep: string)
    requires |ts| > 0
    ensures Suffixed(ts, sep) == Join(sep, ts) + sep
  {
    var init := ts[..|ts| - 1];
    if |init| == 0 {
      assert ts == [ts[0]];
    } else {
      SuffixedJoin(init, sep);
      assert init + [ts[|ts| - 1]] == ts;
      JoinSnoc(sep, init, ts[|ts| - 1]);
    }
  }

  /**
   * createXPathNameAttributeSelector: opens a bracket, appends every name test
   * followed by " or ", cuts the last four characters and closes the bracket.
   */
  method CreateXPathNameAttributeSelector(names: JStringArray) returns (r: string)
    ensures r == NameSelector(names)
  {
    if names == None || |names.value| == 0 {
      return "";
    }
    var ns := names.value;
    ghost var terms := NameTerms(ns);
    var sb := "[";
    var i := 0;
    while i < |ns|
      invariant 0 <= i <= |ns|
      invariant sb == "[" + Suffixed(terms[..i], Or)
    {
      assert terms[..i + 1][..i] == terms[..i];
      TermThenOr(sb, Suffixed(terms[..i], Or), ns[i]);
      sb := sb + ("@name='" + Text(ns[i]) + "' or ");
      i := i + 1;
    }
    assert terms[..i] == terms;
    SuffixedJoin(terms, Or);
    CutLastOr(Join(Or, terms));
    sb := sb[..|sb| - 4];
    r := sb + "]";
  }

  /** StringBuilder.delete of the last four characters removes the final " or ". */
  lemma CutLastOr(body: string)
    ensures ("[" + body + Or)[..|"[" + body + Or| - 4] == "[" + body
  {
  }

  /** No names, or a null array, give no predicate at all. */
  lemma NameSelectorEmpty()
    ensures NameSelector(None) == ""
    ensures NameSelector(Some([])) == ""
  {
  }

  /** One name gives a single test, with no trailing " or ". */
  lemma NameSelectorSingle(name: JString)
    ensures NameSelector(Some([name])) == "[@name='" + Text(name) + "']"
  {
  }

  /** One more name adds " or " and its test before the closing bracket. */
  lemma NameSelectorSnoc(names: seq<JString>, name: JString)
    requires |names| > 0
    ensures NameSelector(Some(names + [name]))
      == "[" + Join(Or, NameTerms(names)) + Or + NameTerm(name) + "]"
  {
    NameTermsSnoc(names, name);
    JoinSnoc(Or, NameTerms(names), NameTerm(name));
  }

  // ---------------------------------------------------------------- stylesheet

  const XslNamespace: string := "http://www.w3.org/1999/XSL/Transform"
  const XmlDeclaration: string := "<?xml version=\"1.0\" ?>"
  const StylesheetEnd: string := "</xsl:stylesheet>"

  /** The pieces createStylesheet appends, one per append call, in its order. */
  datatype Section =
    | Prolog
    | Open(namespace: JString)
    | SubNamespace(subns: JString)
    | ExcludePrefixes(prefixes: string)
    | ExtensionVariable(moduleId: JString)
    | ExtensionTemplates(moduleId: JString)
    | SubsystemVariable(content: string)
    | SubsystemTemplates(profileSelector: string, subns: JString)
    | SocketBindingVariable(content: string)
    | SocketBindingTemplates(groupSelector: string, bindingName: string)
    | IdentityTemplate
    | Close

  /** The text of one section. */
  function RenderSection(s: Section): string
  {
    match s
    case Prolog => XmlDeclaration
    case Open(ns) =>
      "<xsl:stylesheet xmlns:xsl=\"" + XslNamespace + "\"" + " xmlns:s=\"" + Text(ns) + "\""
    case SubNamespace(subns) => " xmlns:sub=\"" + Text(subns) + "\""
    case ExcludePrefixes(p) => " exclude-result-prefixes=\"" + p + "\" version=\"1.0\">"
    case ExtensionVariable(m) =>
      "<xsl:variable name=\"extension\"><extension module=\"" + Text(m) + "\" /></xsl:variable>"
    case ExtensionTemplates(m) =>
      "<xsl:template match=\"s:extensions\"><xsl:copy><xsl:apply-templates select=\"*[not(@module='"
      + Text(m)
      + "')]|node()\" /></xsl:copy>"
      + "</xsl:template><xsl:template match=\"s:extension[last()]\"><xsl:copy-of select=\"$extension\" /></xsl:template>"
    case SubsystemVariable(c) => "<xsl:variable name=\"subsystem\">" + c + "</xsl:variable>"
    case SubsystemTemplates(sel, subns) =>
      "<xsl:template match=\"@s:profile" + sel + "\"><xsl:copy><xsl:apply-templates select=\"*[not(namespace-uri() ='"
      + Text(subns)
      + "')]|node()\" /></xsl:copy>"
      + "</xsl:template><xsl:template match=\"s:profile" + sel + "/*[last()]\"><xsl:copy-of select=\"$subsystem\" /></xsl:template>"
    case SocketBindingVariable(c) => "<xsl:variable name=\"socketBinding\">" + c + "</xsl:variable>"
    case SocketBindingTemplates(sel, b) =>
      "<xsl:template match=\"@s:socket-binding-group" + sel + "\"><xsl:copy><xsl:apply-templates select=\"*[not(@name='"
      + b
      + "')]|node()\" /></xsl:copy>"
      + "</xsl:template><xsl:template match=\"s:socket-binding-group" + sel + "/*[last()]\"><xsl:copy-of select=\"$socketBinding\" /></xsl:template>"
    case IdentityTemplate =>
      "<xsl:template match=\"@*|node()\"><xsl:copy><xsl:apply-templates select=\"@*|node()\" /></xsl:copy></xsl:template>"
    case Close => StylesheetEnd
  }

  /** The text of sections written one after the other. */
  function Render(ss: seq<Section>): string
  {
    if |ss| == 0 then "" else Render(ss[..|ss| - 1]) + RenderSection(ss[|ss| - 1])
  }

  /** The result prefixes left out of the output: s, and sub when a subsystem is configured. */
  function Excluded(isSubsystem: bool): string
  {
    if isSubsystem then "s sub" else "s"
  }

  /**
   * The sections of the stylesheet: the header declaring the namespaces, the
   * extension templates, the subsystem templates when a subsystem document is
   * given, the socket-binding templates when a socket-binding document is
   * given, the identity template and the closing tag.
   */
  function Sections(namespace: JString, moduleId: JString, subsystem: Option<Document>, profileNames: JStringArray,
                    socketBinding: Option<Document>, socketBindingGroups: JStringArray): seq<Section>
  {
    Header(namespace, subsystem) + ExtensionPart(moduleId) + SubsystemPart(subsystem, profileNames)
    + SocketBindingPart(socketBinding, socketBindingGroups) + [IdentityTemplate, Close]
  }

  /** The declaration and the opening tag with its namespaces and excluded prefixes. */
  function Header(namespace: JString, subsystem: Option<Document>): seq<Section>
  {
    [Prolog, Open(namespace)]
    + (if subsystem.Some? then [SubNamespace(GetNameSpace(subsystem))] else [])
    + [ExcludePrefixes(Excluded(subsystem.Some?))]
  }

  function ExtensionPart(moduleId: JString): seq<Section>
  {
    [ExtensionVariable(moduleId), ExtensionTemplates(moduleId)]
  }

  function SubsystemPart(subsystem: Option<Document>, profileNames: JStringArray): seq<Section>
  {
    if subsystem.Some?
    then [SubsystemVariable(subsystem.value.serialized),
          SubsystemTemplates(NameSelector(profileNames), GetNameSpace(subsystem))]
    else []
  }

  function SocketBindingPart(socketBinding: Option<Document>, socketBindingGroups: JStringArray): seq<Section>
  {
    if socketBinding.Some?
    then [SocketBindingVariable(socketBinding.value.serialized),
          SocketBindingTemplates(NameSelector(socketBindingGroups), GetAttribute(socketBinding.value.root, "name"))]
    else []
  }

  /** StringBuilder.append of one section to text that renders ss. */
  method Add(ghost ss: seq<Section>, sheet: string, s: Section) returns (r: string)
    requires sheet == Render(ss)
    ensures r == Render(ss + [s])
  {
    assert (ss + [s])[..|ss|] == ss;
    r := sheet + RenderSection(s);
  }

  /** Two appends in a row. */
  method AddPair(ghost ss: seq<Section>, sheet: string, a: Section, b: Section) returns (r: string)
    requires sheet == Render(ss)
    ensures r == Render(ss + [a, b])
  {
    ghost var sa := ss + [a];
    assert sa + [b] == ss + [a, b];
    r := Add(ss, sheet, a);
    r := Add(sa, r, b);
  }

  /** The two values of the excluded prefixes, as the source builds them. */
  lemma ExcludedText()
    ensures Excluded(false) == "s" && Excluded(true) == "s" + " sub"
  {
  }

  /**
   * The first appends of createStylesheet: the declaration, the opening tag
   * with the server namespace as s, the subsystem namespace as sub when a
   * subsystem document is given, and the excluded prefixes.
   */
  method AppendHeader(namespace: JString, subsystem: Option<Document>) returns (sheet: string, subns: JString)
    ensures sheet == Render(Header(namespace, subsystem))
    ensures subns == if subsystem.Some? then GetNameSpace(subsystem) else Some("")
  {
    var ignoreNs := "s";
    ExcludedText();
    subns := Some("");
    ghost var ss := [];
    sheet := Add(ss, "", Prolog);
    ss := ss + [Prolog];
    sheet := Add(ss, sheet, Open(namespace));
    ss := ss + [Open(namespace)];
    if subsystem != None {
      subns := GetNameSpace(subsystem);
      sheet := Add(ss, sheet, SubNamespace(subns));
      ss := ss + [SubNamespace(subns)];
      ignoreNs := ignoreNs + " sub";
    }
    assert ignoreNs == Excluded(subsystem.Some?);
    sheet := Add(ss, sheet, ExcludePrefixes(ignoreNs));
    ss := ss + [ExcludePrefixes(ignoreNs)];
    assert ss == Header(namespace, subsystem);
  }

  /**
   * createStylesheet: the sections appended one by one, the optional ones
   * under the same tests as the source; the text of each is RenderSection's.
   */
  method CreateStylesheet(namespace: JString, moduleId: JString, subsystem: Option<Document>, profileNames: JStringArray,
                          socketBinding: Option<Document>, socketBindingGroups: JStringArray) returns (sheet: string)
    ensures sheet == Render(Sections(namespace, moduleId, subsystem, profileNames, socketBinding, socketBindingGroups))
  {
    var subns;
    sheet, subns := AppendHeader(namespace, subsystem);
    ghost var ss := Header(namespace, subsystem);

    sheet := AddPair(ss, sheet, ExtensionVariable(moduleId), ExtensionTemplates(moduleId));
    ss := ss + ExtensionPart(moduleId);

    if subsystem != None {
      var profileSelector := CreateXPathNameAttributeSelector(profileNames);
      sheet := AddPair(ss, sheet, SubsystemVariable(subsystem.value.serialized), SubsystemTemplates(profileSelector, subns));
    } else {
      assert ss + SubsystemPart(subsystem, profileNames) == ss;
    }
    ss := ss + SubsystemPart(subsystem, profileNames);

    if socketBinding != None {
      var sbgSelector := CreateXPathNameAttributeSelector(socketBindingGroups);
      var bindingName := GetAttribute(socketBinding.value.root, "name");
      sheet := AddPair(ss, sheet, SocketBindingVariable(socketBinding.value.serialized), SocketBindingTemplates(sbgSelector, bindingName));
    } else {
      assert ss + SocketBindingPart(socketBinding, socketBindingGroups) == ss;
    }
    ss := ss + SocketBindingPart(socketBinding, socketBindingGroups);

    sheet := AddPair(ss, sheet, IdentityTemplate, Close);
  }

  /** Rendering distributes over concatenation of section lists. */
  lemma {:induction false} RenderAppend(a: seq<Section>, b: seq<Section>)
    ensures Render(a + b) == Render(a) + Render(b)
  {
    if |b| > 0 {
      var init := b[..|b| - 1];
      var last := RenderSection(b[|b| - 1]);
      assert (a + b)[..|a + b| - 1] == a + init;
      RenderAppend(a, init);
      assert b[..|b| - 1] == init;
      assert Render(b) == Render(init) + last;
      assert Render(a + b) == Render(a) + Render(init) + last;
      Assoc(Render(a), Render(init), last);
    } else {
      assert a + b == a;
    }
  }

  lemma SplitEnds(ss: seq<Section>)
    requires |ss| >= 2
    ensures ss == [ss[0]] + ss[1..|ss| - 1] + [ss[|ss| - 1]]
  {
  }

  /** A section list that opens with the prolog and ends with the closing tag renders inside those two texts. */
  lemma RenderFrame(ss: seq<Section>)
    requires |ss| >= 2 && ss[0] == Prolog && ss[|ss| - 1] == Close
    ensures Render(ss) == XmlDeclaration + Render(ss[1..|ss| - 1]) + StylesheetEnd
  {
    var inner := ss[1..|ss| - 1];
    SplitEnds(ss);
    RenderAppend([Prolog] + inner, [Close]);
    RenderAppend([Prolog], inner);
    assert Render([Prolog]) == RenderSection(Prolog) by { assert [Prolog][..0] == []; }
    assert Render([Close]) == RenderSection(Close) by { assert [Close][..0] == []; }
  }

  /** The stylesheet text opens with the XML declaration and ends with the closing tag. */
  lemma StylesheetFrame(namespace: JString, moduleId: JString, subsystem: Option<Document>, profileNames: JStringArray,
                        socketBinding: Option<Document>, socketBindingGroups: JStringArray)
    ensures var ss := Sections(namespace, moduleId, subsystem, profileNames, socketBinding, socketBindingGroups);
      exists middle :: Render(ss) == XmlDeclaration + middle + StylesheetEnd
  {
    var ss := Sections(namespace, moduleId, subsystem, profileNames, socketBinding, socketBindingGroups);
    SectionsLayout(namespace, moduleId, subsystem, profileNames, socketBinding, socketBindingGroups);
    RenderFrame(ss);
  }

  /** The section list: header of 3 or 4 sections, 2 for the extension, 2 per optional part, 2 at the end. */
  lemma SectionsLayout(namespace: JString, moduleId: JString, subsystem: Option<Document>, profileNames: JStringArray,
                       socketBinding: Option<Document>, socketBindingGroups: JStringArray)
    ensures var ss := Sections(namespace, moduleId, subsystem, profileNames, socketBinding, socketBindingGroups);
      var h := if subsystem.Some? then 4 else 3;
      && |ss| == h + 4 + (if subsystem.Some? then 2 else 0) + (if socketBinding.Some? then 2 else 0)
      && ss[0] == Prolog && ss[1] == Open(namespace)
      && (subsystem.Some? ==> ss[2] == SubNamespace(GetNameSpace(subsystem)))
      && ss[h - 1] == ExcludePrefixes(Excluded(subsystem.Some?))
      && ss[h] == ExtensionVariable(moduleId) && ss[h + 1] == ExtensionTemplates(moduleId)
      && ss[|ss| - 2] == IdentityTemplate && ss[|ss| - 1] == Close
  {
    var hd := Header(namespace, subsystem);
    var tail := Tail(moduleId, subsystem, profileNames, socketBinding, socketBindingGroups);
    HeaderLayout(namespace, subsystem);
    TailLayout(moduleId, subsystem, profileNames, socketBinding, socketBindingGroups);
    assert Sections(namespace, moduleId, subsystem, profileNames, socketBinding, socketBindingGroups) == hd + tail;
    JoinLayout(hd, tail);
  }

  /** The sections after the header. */
  function Tail(moduleId: JString, subsystem: Option<Document>, profileNames: JStringArray,
                socketBinding: Option<Document>, socketBindingGroups: JStringArray): seq<Section>
  {
    ExtensionPart(moduleId) + SubsystemPart(subsystem, profileNames)
    + SocketBindingPart(socketBinding, socketBindingGroups) + [IdentityTemplate, Close]
  }

  lemma HeaderLayout(namespace: JString, subsystem: Option<Document>)
    ensures var hd := Header(namespace, subsystem);
      && |hd| == (if subsystem.Some? then 4 else 3)
      && hd[0] == Prolog && hd[1] == Open(namespace)
      && (subsystem.Some? ==> hd[2] == SubNamespace(GetNameSpace(subsystem)))
      && hd[|hd| - 1] == ExcludePrefixes(Excluded(subsystem.Some?))
  {
  }

  lemma TailLayout(moduleId: JString, subsystem: Option<Document>, profileNames: JStringArray,
                   socketBinding: Option<Document>, socketBindingGroups: JStringArray)
    ensures var tail := Tail(moduleId, subsystem, profileNames, socketBinding, socketBindingGroups);
      && |tail| == 4 + (if subsystem.Some? then 2 else 0) + (if socketBinding.Some? then 2 else 0)
      && tail[0] == ExtensionVariable(moduleId) && tail[1] == ExtensionTemplates(moduleId)
      && tail[|tail| - 2] == IdentityTemplate && tail[|tail| - 1] == Close
  {
  }

  lemma JoinLayout(hd: seq<Section>, tail: seq<Section>)
    requires |hd| >= 2 && |tail| >= 2
    ensures var ss := hd + tail;
      && |ss| == |hd| + |tail|
      && (forall k :: 0 <= k < |hd| ==> ss[k] == hd[k])
      && ss[|hd|] == tail[0] && ss[|hd| + 1] == tail[1]
      && ss[|ss| - 2] == tail[|tail| - 2] && ss[|ss| - 1] == tail[|tail| - 1]
  {
  }

  /** exclude-result-prefixes names s, and also sub exactly when a subsystem document is given. */
  lemma ExcludedPrefixes(isSubsystem: bool)
    ensures Excluded(isSubsystem) == "s" || Excluded(isSubsystem) == "s sub"
    ensures Excluded(isSubsystem) == "s sub" <==> isSubsystem
  {
    if !isSubsystem {
      assert |Excluded(isSubsystem)| == 1;
    }
  }

  /** The subsystem templates are emitted exactly when a subsystem document is given, with the profile selector. */
  lemma SubsystemTemplatesIff(namespace: JString, moduleId: JString, subsystem: Option<Document>, profileNames: JStringArray,
                              socketBinding: Option<Document>, socketBindingGroups: JStringArray)
    ensures var ss := Sections(namespace, moduleId, subsystem, profileNames, socketBinding, socketBindingGroups);
      && ((exists i :: 0 <= i < |ss| && ss[i].SubsystemTemplates?) <==> subsystem.Some?)
      && forall i :: 0 <= i < |ss| && ss[i].SubsystemTemplates? ==>
           ss[i] == SubsystemTemplates(NameSelector(profileNames), GetNameSpace(subsystem))
  {
    var ss := Sections(namespace, moduleId, subsystem, profileNames, socketBinding, socketBindingGroups);
    var h := Header(namespace, subsystem) + ExtensionPart(moduleId);
    var sub := SubsystemPart(subsystem, profileNames);
    var rest := SocketBindingPart(socketBinding, socketBindingGroups) + [IdentityTemplate, Close];
    assert ss == h + sub + rest;
    forall i | 0 <= i < |ss| && ss[i].SubsystemTemplates?
      ensures |h| <= i < |h| + |sub| && ss[i] == sub[i - |h|]
    {
    }
    if subsystem.Some? {
      assert ss[|h| + 1] == sub[1];
    }
  }

  /** The socket-binding templates are emitted exactly when a socket-binding document is given; they keep out its root's name. */
  lemma SocketBindingTemplatesIff(namespace: JString, moduleId: JString, subsystem: Option<Document>, profileNames: JStringArray,
                                  socketBinding: Option<Document>, socketBindingGroups: JStringArray)
    ensures var ss := Sections(namespace, moduleId, subsystem, profileNames, socketBinding, socketBindingGroups);
      && ((exists i :: 0 <= i < |ss| && ss[i].SocketBindingTemplates?) <==> socketBinding.Some?)
      && forall i :: 0 <= i < |ss| && ss[i].SocketBindingTemplates? ==>
           ss[i] == SocketBindingTemplates(NameSelector(socketBindingGroups), GetAttribute(socketBinding.value.root, "name"))
  {
    var ss := Sections(namespace, moduleId, subsystem, profileNames, socketBinding, socketBindingGroups);
    var h := Header(namespace, subsystem) + ExtensionPart(moduleId) + SubsystemPart(subsystem, profileNames);
    var sb := SocketBindingPart(socketBinding, socketBindingGroups);
    var rest := [IdentityTemplate, Close];
    assert ss == h + sb + rest;
    forall i | 0 <= i < |ss| && ss[i].SocketBindingTemplates?
      ensures |h| <= i < |h| + |sb| && ss[i] == sb[i - |h|]
    {
    }
    if socketBinding.Some? {
      assert ss[|h| + 1] == sb[1];
    }
  }

  // ---------------------------------------------------------------- register

  /** How register ends: an exception, or the stylesheet handed to the XSLT processor with the file it reads and the one it writes. */
  datatype Outcome =
    | IllegalArgument
    | NullPointer
    | Transform(stylesheet: string, source: File, dest: File)

  /** The profile names createStylesheet gets: none for a standalone configuration. */
  function EffectiveProfiles(srcDoc: Document, profiles: JStringArray): JStringArray
  {
    if IsStandaloneXml(srcDoc) then None else profiles
  }

  /**
   * What register(options, destFile, moduleId) ends in, for the option values
   * f: a null serverConfig cannot be parsed; a null subsystem or socket-binding
   * file fails when isFile is called on it, and a null destFile when the
   * result stream is opened on it; otherwise serverConfig is transformed into
   * destFile with the stylesheet of the documents and options.
   */
  function RegisterOutcome(f: Fields, srcDoc: Document, subsystemDoc: Option<Document>,
                           socketBindingDoc: Option<Document>, destFile: Option<File>, moduleId: JString): Outcome
  {
    if f.serverConfig.None? then IllegalArgument
    else if f.subsystem.None? || f.socketBinding.None? || destFile.None? then NullPointer
    else Transform(
      Render(Sections(GetNameSpace(Some(srcDoc)), moduleId, subsystemDoc, EffectiveProfiles(srcDoc, f.profiles),
                      socketBindingDoc, f.socketBindingGroups)),
      f.serverConfig.value, destFile.value)
  }

  /**
   * register(options, destFile, moduleId), with the parsing done outside:
   * srcDoc is the parsed server configuration, subsystemDoc and
   * socketBindingDoc are the parsed files when they are readable files.
   * A null serverConfig fails before anything; for a standalone
   * configuration the profiles are then cleared; a null subsystem or
   * socket-binding file fails when isFile is called on it, and a null
   * destFile once the stylesheet is built, when the result is opened on it.
   */
  method Register(options: RegisterOptions, srcDoc: Document, subsystemDoc: Option<Document>,
                  socketBindingDoc: Option<Document>, destFile: Option<File>, moduleId: JString) returns (r: Outcome)
    modifies options
    ensures r == RegisterOutcome(old(options.State()), srcDoc, subsystemDoc, socketBindingDoc, destFile, moduleId)
    ensures old(options.serverConfig).None? ==> options.State() == old(options.State())
    ensures old(options.serverConfig).Some? ==>
      options.State() == old(options.State()).(profiles := EffectiveProfiles(srcDoc, old(options.profiles)))
  {
    if options.GetServerConfig() == None {
      return IllegalArgument;
    }
    if IsStandaloneXml(srcDoc) {
      var _ := options.Profiles(None);
    }
    if options.GetSubsystem() == None || options.GetSocketBinding() == None {
      return NullPointer;
    }
    var stylesheet := CreateStylesheet(GetNameSpace(Some(srcDoc)), moduleId, subsystemDoc, options.GetProfiles(),
                                       socketBindingDoc, options.GetSocketBindingGroups());
    if destFile == None {
      return NullPointer;
    }
    r := Transform(stylesheet, options.GetServerConfig().value, destFile.value);
  }

  /**
   * The exceptions of register, each exactly when its cause holds, in the
   * order the source meets them; a transformation reads serverConfig and
   * writes destFile.
   */
  lemma RegisterFailures(f: Fields, srcDoc: Document, subsystemDoc: Option<Document>,
                         socketBindingDoc: Option<Document>, destFile: Option<File>, moduleId: JString)
    ensures var r := RegisterOutcome(f, srcDoc, subsystemDoc, socketBindingDoc, destFile, moduleId);
      && (r == IllegalArgument <==> f.serverConfig.None?)
      && (r == NullPointer <==>
            f.serverConfig.Some? && (f.subsystem.None? || f.socketBinding.None? || destFile.None?))
      && (r.Transform? ==> f.serverConfig == Some(r.source) && destFile == Some(r.dest))
  {
  }

  /**
   * For a standalone configuration the profiles are ignored: register
   * transforms with the stylesheet of no profile names, whose subsystem
   * templates carry the empty profile selector and so match every profile.
   */
  lemma StandaloneSelectsAllProfiles(f: Fields, srcDoc: Document, subsystemDoc: Option<Document>,
                                     socketBindingDoc: Option<Document>, destFile: Option<File>, moduleId: JString)
    requires IsStandaloneXml(srcDoc)
    requires f.serverConfig.Some? && f.subsystem.Some? && f.socketBinding.Some? && destFile.Some?
    ensures var ss := Sections(GetNameSpace(Some(srcDoc)), moduleId, subsystemDoc, None,
                               socketBindingDoc, f.socketBindingGroups);
      && RegisterOutcome(f, srcDoc, subsystemDoc, socketBindingDoc, destFile, moduleId)
         == Transform(Render(ss), f.serverConfig.value, destFile.value)
      && forall i :: 0 <= i < |ss| && ss[i].SubsystemTemplates? ==> ss[i].profileSelector == ""
  {
    var ss := Sections(GetNameSpace(Some(srcDoc)), moduleId, subsystemDoc, None, socketBindingDoc, f.socketBindingGroups);
    SubsystemTemplatesIff(GetNameSpace(Some(srcDoc)), moduleId, subsystemDoc, None, socketBindingDoc, f.socketBindingGroups);
    NameSelectorEmpty();
  }
}
