/**
 * The insert-or-replace step of the XML patch engine, on the element tree of
 * XmlTree: content that declares no namespace takes the namespace of the node
 * it is inserted under, the content's identity (its name, namespace and
 * identifying attributes, or the one attribute an edit names) decides whether
 * an existing child is replaced in place or the content is appended, and a
 * builder applies its edits to the document one after the other.
 */
module XmlUpsert {
  import opened JavaLang
  import opened XmlTree
  import opened XmlConfigBuilder

  // ---------------------------------------------------------------- namespace inheritance

  /**
   * The content as placed under a node of namespace ns: an element without a
   * namespace takes ns, and so do its children in turn; an element that has its
   * own namespace keeps it, with everything below it.
   */
  function Adopt(e: Element, ns: string): (r: Element)
    ensures r.name == e.name && r.attributes == e.attributes && |r.children| == |e.children|
    decreases e, 1
  {
    if e.namespace != "" then e
    else Element(e.name, ns, e.attributes, AdoptAll(e.children, ns))
  }

  function AdoptAll(es: seq<Element>, ns: string): (r: seq<Element>)
    ensures |r| == |es|
    ensures forall k :: 0 <= k < |es| ==> r[k] == Adopt(es[k], ns)
    decreases es, 0
  {
    if |es| == 0 then [] else [Adopt(es[0], ns)] + AdoptAll(es[1..], ns)
  }

  /** The namespace the adopted content ends up with. */
  lemma AdoptNamespace(e: Element, ns: string)
    ensures Adopt(e, ns).namespace == if e.namespace != "" then e.namespace else ns
  {
  }

  /** A child that declares its own namespace is kept as it is, subtree and all. */
  lemma AdoptKeepsNamespacedChild(e: Element, ns: string, k: nat)
    requires e.namespace == "" && k < |e.children| && e.children[k].namespace != ""
    ensures Adopt(e, ns).children[k] == e.children[k]
  {
  }

  /** Adopting the empty namespace changes nothing. */
  lemma {:induction false} AdoptNothing(e: Element)
    ensures Adopt(e, "") == e
    decreases e, 1
  {
    if e.namespace == "" {
      AdoptAllNothing(e.children);
    }
  }

  lemma {:induction false} AdoptAllNothing(es: seq<Element>)
    ensures AdoptAll(es, "") == es
    decreases es, 0
  {
    forall k | 0 <= k < |es| ensures AdoptAll(es, "")[k] == es[k] {
      AdoptNothing(es[k]);
    }
  }

  /** Adopting twice is adopting once. */
  lemma {:induction false} AdoptTwice(e: Element, ns: string)
    ensures Adopt(Adopt(e, ns), ns) == Adopt(e, ns)
    decreases e, 1
  {
    if e.namespace == "" {
      if ns == "" {
        AdoptNothing(Adopt(e, ns));
      }
    }
  }

  // ---------------------------------------------------------------- identity

  /**
   * The attribute tests of the identity selector: every identifying attribute
   * of the content, or, when the edit names one attribute, that attribute with
   * the content's value for it ("" when the content has none).
   */
  function IdentityTests(content: Element, identity: JString): (r: seq<Attribute>)
    ensures identity.None? ==> forall a :: a in r ==> a in content.attributes
    ensures identity.Some? ==> r == [Attribute(identity.value, GetAttribute(content, identity.value))]
  {
    if identity.None? then IdentityAttributes(content.attributes)
    else [Attribute(identity.value, GetAttribute(content, identity.value))]
  }

  /** An existing child is equivalent to the content: same name, same namespace, every identity test holds. */
  predicate Matches(existing: Element, content: Element, identity: JString)
  {
    && existing.name == content.name
    && existing.namespace == content.namespace
    && forall a :: a in IdentityTests(content, identity) ==> a in existing.attributes
  }

  /** Content that has the attribute its edit names (if it names one) matches itself. */
  predicate SelfIdentified(content: Element, identity: JString)
  {
    identity.Some? ==> HasAttribute(content, identity.value)
  }

  lemma SelfMatch(content: Element, identity: JString)
    requires SelfIdentified(content, identity)
    ensures Matches(content, content, identity)
  {
    if identity.Some? {
      var n := identity.value;
      var i :| 0 <= i < |content.attributes| && content.attributes[i] == Attribute(n, GetAttribute(content, n));
      assert content.attributes[i] in content.attributes;
    }
  }

  /** Adoption keeps the name and the attributes, so it keeps self-identification. */
  lemma AdoptSelfMatch(content: Element, ns: string, identity: JString)
    requires SelfIdentified(content, identity)
    ensures Matches(Adopt(content, ns), Adopt(content, ns), identity)
  {
    var c := Adopt(content, ns);
    assert HasAttribute(c, identity.value) <== identity.Some? by {
      if identity.Some? {
        var i :| 0 <= i < |content.attributes| && content.attributes[i].name == identity.value;
        assert c.attributes[i].name == identity.value;
      }
    }
    SelfMatch(c, identity);
  }

  /** The index of the first child equivalent to the content; |children| when there is none. */
  function FirstMatch(children: seq<Element>, content: Element, identity: JString): (r: nat)
    ensures r <= |children|
    ensures forall k :: 0 <= k < r ==> !Matches(children[k], content, identity)
    ensures r < |children| ==> Matches(children[r], content, identity)
  {
    if |children| == 0 then 0
    else if Matches(children[0], content, identity) then 0
    else 1 + FirstMatch(children[1..], content, identity)
  }

  /** How many children are equivalent to the content. */
  function CountMatches(children: seq<Element>, content: Element, identity: JString): (r: nat)
    ensures r <= |children|
    ensures r == 0 <==> forall k :: 0 <= k < |children| ==> !Matches(children[k], content, identity)
  {
    if |children| == 0 then 0
    else (if Matches(children[0], content, identity) then 1 else 0) + CountMatches(children[1..], content, identity)
  }

  /**
   * What one upsert did: appended the content, replaced the only equivalent
   * child, or replaced the first of several equivalent children (an identity
   * that does not single out one child).
   */
  datatype Outcome = Appended | Replaced(index: nat) | Ambiguous(index: nat, matches: nat)

  /**
   * Inserts content under context: adopted to the context's namespace, it
   * replaces the first equivalent child in its position, or is appended as the
   * last child.
   */
  function Upsert(context: Element, content: Element, identity: JString): (r: (Element, Outcome))
    ensures r.0.name == context.name && r.0.namespace == context.namespace && r.0.attributes == context.attributes
  {
    var c := Adopt(content, context.namespace);
    var i := FirstMatch(context.children, c, identity);
    if i == |context.children| then
      (context.(children := context.children + [c]), Appended)
    else
      var n := CountMatches(context.children, c, identity);
      (context.(children := context.children[i := c]), if n == 1 then Replaced(i) else Ambiguous(i, n))
  }

  /** Without an equivalent child the adopted content becomes the last child, after the others unchanged. */
  lemma UpsertAppends(context: Element, content: Element, identity: JString)
    requires forall k :: 0 <= k < |context.children| ==>
      !Matches(context.children[k], Adopt(content, context.namespace), identity)
    ensures var (r, outcome) := Upsert(context, content, identity);
      && outcome == Appended
      && r.children == context.children + [Adopt(content, context.namespace)]
  {
  }

  /**
   * With an equivalent child, the first one is replaced by the adopted content;
   * every other child, equivalent or not, is left as it was, and the outcome
   * says whether the match was unique.
   */
  lemma UpsertReplaces(context: Element, content: Element, identity: JString, i: nat)
    requires i < |context.children|
    requires Matches(context.children[i], Adopt(content, context.namespace), identity)
    requires forall k :: 0 <= k < i ==> !Matches(context.children[k], Adopt(content, context.namespace), identity)
    ensures var (r, outcome) := Upsert(context, content, identity);
      && |r.children| == |context.children|
      && r.children[i] == Adopt(content, context.namespace)
      && (forall k :: 0 <= k < |r.children| && k != i ==> r.children[k] == context.children[k])
      && (outcome.Replaced? || outcome.Ambiguous?)
      && outcome.index == i
      && (outcome.Ambiguous? <==> CountMatches(context.children, Adopt(content, context.namespace), identity) > 1)
  {
  }

  /** An ambiguous outcome means at least two children were equivalent. */
  lemma AmbiguousMeansSeveral(context: Element, content: Element, identity: JString)
    requires Upsert(context, content, identity).1.Ambiguous?
    ensures Upsert(context, content, identity).1.matches >= 2
  {
    var c := Adopt(content, context.namespace);
    var i := FirstMatch(context.children, c, identity);
    assert CountMatches(context.children, c, identity) != 0;
  }

  /** The adopted content is a child after the upsert, and there is one child more only when it was appended. */
  lemma UpsertPlaces(context: Element, content: Element, identity: JString)
    ensures var (r, outcome) := Upsert(context, content, identity);
      && Adopt(content, context.namespace) in r.children
      && |r.children| == |context.children| + (if outcome == Appended then 1 else 0)
  {
    var (r, outcome) := Upsert(context, content, identity);
    var c := Adopt(content, context.namespace);
    if outcome == Appended {
      assert r.children[|context.children|] == c;
    } else {
      assert r.children[FirstMatch(context.children, c, identity)] == c;
    }
  }

  /**
   * Upserting the same content twice gives the document of upserting it once:
   * the second time the content inserted the first time is found and replaced
   * by an equal copy.
   */
  lemma UpsertIdempotent(context: Element, content: Element, identity: JString)
    requires SelfIdentified(content, identity)
    ensures var once := Upsert(context, content, identity).0;
      Upsert(once, content, identity).0 == once
  {
    var c := Adopt(content, context.namespace);
    var once := Upsert(context, content, identity).0;
    var i := FirstMatch(context.children, c, identity);
    AdoptSelfMatch(content, context.namespace, identity);
    assert once.namespace == context.namespace;
    if i == |context.children| {
      assert once.children == context.children + [c];
      FirstMatchSkips(context.children, [c], c, identity);
      assert once.children[|context.children|] == c;
    } else {
      assert once.children == context.children[i := c];
      FirstMatchReplaced(context.children, i, c, identity);
      assert once.children[i := c] == once.children;
    }
  }

  /** Children that do not match, followed by more, leave the first match in what follows. */
  lemma {:induction false} FirstMatchSkips(a: seq<Element>, b: seq<Element>, content: Element, identity: JString)
    requires forall k :: 0 <= k < |a| ==> !Matches(a[k], content, identity)
    requires |b| > 0 && Matches(b[0], content, identity)
    ensures FirstMatch(a + b, content, identity) == |a|
  {
    if |a| > 0 {
      assert (a + b)[0] == a[0];
      assert (a + b)[1..] == a[1..] + b;
      FirstMatchSkips(a[1..], b, content, identity);
    } else {
      assert a + b == b;
    }
  }

  /** Putting a matching child at the first match keeps the first match there. */
  lemma FirstMatchReplaced(children: seq<Element>, i: nat, c: Element, identity: JString)
    requires i == FirstMatch(children, c, identity) && i < |children|
    requires Matches(c, c, identity)
    ensures FirstMatch(children[i := c], c, identity) == i
  {
    var updated := children[i := c];
    assert updated == updated[..i] + updated[i..];
    assert updated[i..][0] == c;
    FirstMatchSkips(updated[..i], updated[i..], c, identity);
  }

  // ---------------------------------------------------------------- the builder

  /** One edit as the builder holds it: the content and the optional identity attribute. */
  datatype Edit = Edit(content: Element, identity: JString)

  /** The document after the edits, applied in order to the root. */
  function ApplyAll(document: Element, edits: seq<Edit>): Element
  {
    if |edits| == 0 then document
    else
      var last := edits[|edits| - 1];
      Upsert(ApplyAll(document, edits[..|edits| - 1]), last.content, last.identity).0
  }

  /** The edits form a strict sequence: applying a + b is applying a, then b. */
  lemma {:induction false} ApplyAllAppend(document: Element, a: seq<Edit>, b: seq<Edit>)
    ensures ApplyAll(document, a + b) == ApplyAll(ApplyAll(document, a), b)
    decreases |b|
  {
    if |b| == 0 {
      assert a + b == a;
    } else {
      assert (a + b)[..|a + b| - 1] == a + b[..|b| - 1];
      ApplyAllAppend(document, a, b[..|b| - 1]);
    }
  }

  /** One more edit is one more upsert. */
  lemma ApplyAllStep(document: Element, edits: seq<Edit>, i: nat)
    requires i < |edits|
    ensures ApplyAll(document, edits[..i + 1])
      == Upsert(ApplyAll(document, edits[..i]), edits[i].content, edits[i].identity).0
  {
    assert edits[..i + 1][..i] == edits[..i];
  }

  /** What each edit did, in order: the outcome of its upsert on the document the earlier edits left. */
  function Outcomes(document: Element, edits: seq<Edit>): (r: seq<Outcome>)
    ensures |r| == |edits|
  {
    if |edits| == 0 then []
    else
      var last := edits[|edits| - 1];
      Outcomes(document, edits[..|edits| - 1])
        + [Upsert(ApplyAll(document, edits[..|edits| - 1]), last.content, last.identity).1]
  }

  /** One more edit is one more outcome, and the earlier ones stay. */
  lemma OutcomesStep(document: Element, edits: seq<Edit>, i: nat)
    requires i < |edits|
    ensures Outcomes(document, edits[..i + 1])
      == Outcomes(document, edits[..i]) + [Upsert(ApplyAll(document, edits[..i]), edits[i].content, edits[i].identity).1]
  {
    assert edits[..i + 1][..i] == edits[..i];
  }

  /** The k-th outcome is that of the k-th edit's upsert on the document the first k edits left. */
  lemma {:induction false} OutcomeAt(document: Element, edits: seq<Edit>, k: nat)
    requires k < |edits|
    ensures Outcomes(document, edits)[k]
      == Upsert(ApplyAll(document, edits[..k]), edits[k].content, edits[k].identity).1
    decreases |edits|
  {
    var init := edits[..|edits| - 1];
    if k < |edits| - 1 {
      OutcomeAt(document, init, k);
      assert init[..k] == edits[..k];
    }
  }

  /** Applying the same self-identified edit again right after changes nothing. */
  lemma ApplyAllRepeat(document: Element, edits: seq<Edit>, e: Edit)
    requires SelfIdentified(e.content, e.identity)
    ensures ApplyAll(document, edits + [e, e]) == ApplyAll(document, edits + [e])
  {
    var twice := edits + [e, e];
    ApplyAllStep(document, twice, |edits| + 1);
    ApplyAllStep(document, twice, |edits|);
    assert twice[..|edits| + 2] == twice;
    assert twice[..|edits| + 1] == edits + [e];
    assert twice[..|edits|] == edits;
    UpsertIdempotent(ApplyAll(document, edits), e.content, e.identity);
  }

  /**
   * Applying an edit list twice is not in general applying it once: content
   * with fewer identifying attributes matches what a more specific edit of the
   * list put there. Once, [a with k="v", a] leaves a alone; twice, the second
   * round appends a with k="v" again, since a does not carry k.
   */
  lemma ApplyAllTwiceCounterexample()
    ensures
      var d := Element("r", "", [], []);
      var a := Element("a", "", [], []);
      var a2 := Element("a", "", [Attribute("k", "v")], []);
      var es := [Edit(a2, None), Edit(a, None)];
      ApplyAll(d, es).children == [a] && ApplyAll(d, es + es).children == [a, a2]
  {
    var d := Element("r", "", [], []);
    var a := Element("a", "", [], []);
    var a2 := Element("a", "", [Attribute("k", "v")], []);
    var es := [Edit(a2, None), Edit(a, None)];
    AdoptNothing(a);
    AdoptNothing(a2);
    assert !IsNamespaceDeclaration(Attribute("k", "v"));
    assert IdentityTests(a, None) == [];
    assert IdentityTests(a2, None) == [Attribute("k", "v")];
    assert Matches(a2, a, None) && Matches(a, a, None) && !Matches(a, a2, None);
    // once: a2 is appended, then a replaces it
    var d1 := Upsert(d, a2, None).0;
    assert d1.children == [a2];
    var d2 := Upsert(d1, a, None).0;
    assert FirstMatch([a2], a, None) == 0;
    assert d2.children == [a];
    assert es[..1] == [Edit(a2, None)] && es[..1][..0] == [];
    assert ApplyAll(d, es[..1]) == d1;
    assert ApplyAll(d, es) == d2;
    // twice: a2 no longer finds a match and is appended; a replaces itself
    var d3 := Upsert(d2, a2, None).0;
    assert FirstMatch([a], a2, None) == 1;
    assert d3.children == [a, a2];
    var d4 := Upsert(d3, a, None).0;
    assert FirstMatch([a, a2], a, None) == 0;
    assert d4.children == [a, a2];
    assert ApplyAll(d2, es[..1]) == d3;
    assert ApplyAll(d2, es) == d4;
    ApplyAllAppend(d, es, es);
  }

  /** Applying edits leaves the root's name, namespace and attributes as they were. */
  lemma {:induction false} ApplyAllKeepsRoot(document: Element, edits: seq<Edit>)
    ensures var r := ApplyAll(document, edits);
      r.name == document.name && r.namespace == document.namespace && r.attributes == document.attributes
    decreases |edits|
  {
    if |edits| > 0 {
      ApplyAllKeepsRoot(document, edits[..|edits| - 1]);
    }
  }

  /** The first match is the one position that matches with no match before it. */
  lemma FirstMatchAt(children: seq<Element>, content: Element, identity: JString, p: nat)
    requires p < |children| && Matches(children[p], content, identity)
    requires forall k :: 0 <= k < p ==> !Matches(children[k], content, identity)
    ensures FirstMatch(children, content, identity) == p
  {
  }

  /** Replacing a child other than the first match, by one that does not match if it lies before it, keeps the first match. */
  lemma FirstMatchUpdate(children: seq<Element>, i: nat, x: Element, content: Element, identity: JString)
    requires i < |children| && FirstMatch(children, content, identity) < |children|
    requires i != FirstMatch(children, content, identity)
    requires i < FirstMatch(children, content, identity) ==> !Matches(x, content, identity)
    ensures FirstMatch(children[i := x], content, identity) == FirstMatch(children, content, identity)
  {
    var p := FirstMatch(children, content, identity);
    FirstMatchAt(children[i := x], content, identity, p);
  }

  /** Appending children after the first match keeps it. */
  lemma FirstMatchPrefix(a: seq<Element>, b: seq<Element>, content: Element, identity: JString)
    requires FirstMatch(a, content, identity) < |a|
    ensures FirstMatch(a + b, content, identity) == FirstMatch(a, content, identity)
  {
    var p := FirstMatch(a, content, identity);
    assert forall k :: 0 <= k <= p ==> (a + b)[k] == a[k];
    FirstMatchAt(a + b, content, identity, p);
  }

  /**
   * The edits identify pairwise different content: what one edit places under
   * a node of namespace ns matches no other edit's content.
   */
  ghost predicate DistinctEdits(edits: seq<Edit>, ns: string)
  {
    forall i, j :: 0 <= i < |edits| && 0 <= j < |edits| && i != j ==>
      !Matches(Adopt(edits[i].content, ns), Adopt(edits[j].content, ns), edits[j].identity)
  }

  /** Every edit's first equivalent child is its own content, as placed under a node of namespace ns. */
  ghost predicate Settled(children: seq<Element>, edits: seq<Edit>, ns: string)
  {
    forall j :: 0 <= j < |edits| ==>
      FirstMatch(children, Adopt(edits[j].content, ns), edits[j].identity) < |children|
      && children[FirstMatch(children, Adopt(edits[j].content, ns), edits[j].identity)] == Adopt(edits[j].content, ns)
  }

  /** An upsert whose content is already its first equivalent child changes nothing. */
  lemma UpsertSettled(context: Element, content: Element, identity: JString)
    requires FirstMatch(context.children, Adopt(content, context.namespace), identity) < |context.children|
    requires context.children[FirstMatch(context.children, Adopt(content, context.namespace), identity)]
      == Adopt(content, context.namespace)
    ensures Upsert(context, content, identity).0 == context
  {
  }

  /** One more upsert of content distinct from the earlier edits' keeps every edit settled, itself included. */
  lemma UpsertKeepsSettled(context: Element, prev: seq<Edit>, e: Edit)
    requires Settled(context.children, prev, context.namespace)
    requires SelfIdentified(e.content, e.identity)
    requires DistinctEdits(prev + [e], context.namespace)
    ensures Settled(Upsert(context, e.content, e.identity).0.children, prev + [e], context.namespace)
  {
    var ns := context.namespace;
    var all := prev + [e];
    var cs := context.children;
    var c := Adopt(e.content, ns);
    var i := FirstMatch(cs, c, e.identity);
    var next := Upsert(context, e.content, e.identity).0.children;
    AdoptSelfMatch(e.content, ns, e.identity);
    forall j | 0 <= j < |all|
      ensures FirstMatch(next, Adopt(all[j].content, ns), all[j].identity) < |next|
        && next[FirstMatch(next, Adopt(all[j].content, ns), all[j].identity)] == Adopt(all[j].content, ns)
    {
      if j == |prev| {
        assert all[j] == e;
        if i == |cs| {
          FirstMatchSkips(cs, [c], c, e.identity);
        } else {
          FirstMatchReplaced(cs, i, c, e.identity);
        }
      } else {
        assert all[j] == prev[j];
        var cj := Adopt(prev[j].content, ns);
        var p := FirstMatch(cs, cj, prev[j].identity);
        assert p < |cs| && cs[p] == cj;
        assert !Matches(cj, c, e.identity) && !Matches(c, cj, prev[j].identity) by {
          assert all[|prev|] == e;
        }
        if i == |cs| {
          FirstMatchPrefix(cs, [c], cj, prev[j].identity);
          assert (cs + [c])[p] == cs[p];
        } else {
          FirstMatchUpdate(cs, i, c, cj, prev[j].identity);
        }
      }
    }
  }

  /** Distinct edits stay distinct in a prefix. */
  lemma DistinctPrefix(edits: seq<Edit>, n: nat, ns: string)
    requires n <= |edits| && DistinctEdits(edits, ns)
    ensures DistinctEdits(edits[..n], ns)
  {
    var pre := edits[..n];
    forall i, j | 0 <= i < |pre| && 0 <= j < |pre| && i != j
      ensures !Matches(Adopt(pre[i].content, ns), Adopt(pre[j].content, ns), pre[j].identity)
    {
      assert pre[i] == edits[i] && pre[j] == edits[j];
    }
  }

  /** After a distinct list of self-identified edits, each of them is settled in the document. */
  lemma {:induction false} ApplyAllSettles(document: Element, edits: seq<Edit>)
    requires forall k :: 0 <= k < |edits| ==> SelfIdentified(edits[k].content, edits[k].identity)
    requires DistinctEdits(edits, document.namespace)
    ensures Settled(ApplyAll(document, edits).children, edits, document.namespace)
    decreases |edits|
  {
    if |edits| > 0 {
      var ns := document.namespace;
      var prev, e := edits[..|edits| - 1], edits[|edits| - 1];
      var before := ApplyAll(document, prev);
      assert Settled(before.children, prev, ns) by {
        DistinctPrefix(edits, |edits| - 1, ns);
        assert forall k :: 0 <= k < |prev| ==> prev[k] == edits[k];
        ApplyAllSettles(document, prev);
      }
      assert before.namespace == ns by {
        ApplyAllKeepsRoot(document, prev);
      }
      assert edits == prev + [e];
      UpsertKeepsSettled(before, prev, e);
    }
  }

  /** Edits taken from a settled list, applied in any order and number, change nothing. */
  lemma {:induction false} ApplyAllSettled(document: Element, edits: seq<Edit>, more: seq<Edit>)
    requires Settled(document.children, edits, document.namespace)
    requires forall k :: 0 <= k < |more| ==> more[k] in edits
    ensures ApplyAll(document, more) == document
    decreases |more|
  {
    if |more| > 0 {
      var last := more[|more| - 1];
      ApplyAllSettled(document, edits, more[..|more| - 1]);
      var j :| 0 <= j < |edits| && edits[j] == last;
      UpsertSettled(document, last.content, last.identity);
    }
  }

  /**
   * Applying a list of self-identified edits that identify pairwise different
   * content twice gives the document of applying it once.
   */
  lemma ApplyAllTwice(document: Element, edits: seq<Edit>)
    requires forall k :: 0 <= k < |edits| ==> SelfIdentified(edits[k].content, edits[k].identity)
    requires DistinctEdits(edits, document.namespace)
    ensures ApplyAll(document, edits + edits) == ApplyAll(document, edits)
  {
    var once := ApplyAll(document, edits);
    ApplyAllSettles(document, edits);
    ApplyAllKeepsRoot(document, edits);
    ApplyAllSettled(once, edits, edits);
    ApplyAllAppend(document, edits, edits);
  }

  /**
   * The patch engine's state: the loaded document, mutated in place at build
   * time, and the edits collected so far.
   */
  class ConfigBuilder {
    var document: Element
    var edits: seq<Edit>

    constructor (document: Element)
      ensures this.document == document && edits == []
    {
      this.document := document;
      edits := [];
    }

    /** Collects one edit; the document is not touched until Build. */
    method Insert(edit: Edit)
      modifies this
      ensures edits == old(edits) + [edit] && document == old(document)
    {
      edits := edits + [edit];
    }

    /**
     * Applies every collected edit to the document, in order, and reports what
     * each did.
     */
    method Build() returns (outcomes: seq<Outcome>)
      modifies this
      ensures edits == old(edits)
      ensures document == ApplyAll(old(document), edits)
      ensures outcomes == Outcomes(old(document), edits)
      ensures forall k :: 0 <= k < |edits| ==>
        outcomes[k] == Upsert(ApplyAll(old(document), edits[..k]), edits[k].content, edits[k].identity).1
    {
      ghost var start := document;
      outcomes := [];
      var i := 0;
      while i < |edits|
        invariant 0 <= i <= |edits|
        invariant edits == old(edits)
        invariant document == ApplyAll(start, edits[..i])
        invariant outcomes == Outcomes(start, edits[..i])
      {
        ApplyAllStep(start, edits, i);
        OutcomesStep(start, edits, i);
        var (next, outcome) := Upsert(document, edits[i].content, edits[i].identity);
        document := next;
        outcomes := outcomes + [outcome];
        i := i + 1;
      }
      assert edits[..i] == edits;
      forall k | 0 <= k < |edits|
        ensures outcomes[k] == Upsert(ApplyAll(start, edits[..k]), edits[k].content, edits[k].identity).1
      {
        OutcomeAt(start, edits, k);
      }
    }
  }

  // ---------------------------------------------------------------- the documented cases

  /** <subsystem name="..."><child/>...</subsystem>, without a namespace. */
  function Subsystem(name: string, children: nat): Element
  {
    Element("subsystem", "", [Attribute("name", name)], seq(children, _ => Element("child", "", [], [])))
  }

  /** The document <server><subsystem name="foo"><child/></subsystem></server>. */
  function Server(): Element
  {
    Element("server", "", [], [Subsystem("foo", 1)])
  }

  /** A subsystem of another name is appended after foo, which is left as it was. */
  lemma AppendCase()
    ensures Upsert(Server(), Subsystem("foobar", 1), None) == (Element("server", "", [], [Subsystem("foo", 1), Subsystem("foobar", 1)]), Appended)
  {
    var content := Subsystem("foobar", 1);
    var foo := Subsystem("foo", 1);
    AdoptNothing(content);
    assert !IsNamespaceDeclaration(Attribute("name", "foobar"));
    assert IdentityTests(content, None) == [Attribute("name", "foobar")];
    assert Attribute("name", "foobar") !in foo.attributes;
    assert !Matches(foo, content, None);
    assert Server().children == [foo];
    UpsertAppends(Server(), content, None);
    assert [foo] + [content] == [foo, content];
  }

  /** A subsystem named foo with two children replaces foo: one subsystem, two children. */
  lemma ReplaceCase()
    ensures Upsert(Server(), Subsystem("foo", 2), None) == (Element("server", "", [], [Subsystem("foo", 2)]), Replaced(0))
  {
    var content := Subsystem("foo", 2);
    var foo := Subsystem("foo", 1);
    AdoptNothing(content);
    assert !IsNamespaceDeclaration(Attribute("name", "foo"));
    assert IdentityTests(content, None) == [Attribute("name", "foo")];
    assert foo.attributes == [Attribute("name", "foo")];
    assert Matches(foo, content, None);
    assert Server().children == [foo];
    assert FirstMatch([foo], content, None) == 0;
    assert CountMatches([foo], content, None) == 1;
    assert [foo][0 := content] == [content];
  }

  /**
   * Content without a namespace under a node of namespace ns takes ns, down to
   * its plain children; a child that declares namespace ns2 keeps it, with its
   * own children.
   */
  lemma InheritCase(ns: string, ns2: string)
    requires ns2 != ""
    ensures
      var nested := Element("child2", ns2, [], [Element("keepme", ns2, [], [])]);
      var content := Element("subsystem", "", [Attribute("name", "foobar")], [Element("child", "", [], []), nested]);
      Adopt(content, ns) == Element("subsystem", ns, [Attribute("name", "foobar")], [Element("child", ns, [], []), nested])
  {
  }
}
