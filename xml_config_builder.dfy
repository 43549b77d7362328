/**
 * The string helpers of the XML patch engine (org.jboss.plugins.XmlConfigBuilder)
 * as its tests pin them down: the namespace of the right-most
 * namespace-uri() predicate of a selector, the qualification of the bare
 * location steps of a selector with a prefix (section 2 of XPath 1.0), and
 * the identity selector of an element.
 */
module XmlConfigBuilder {
  import opened JavaLang
  import opened XmlTree

  // ---------------------------------------------------------------- findRecentNamespaceFromXpath

  /** t occurs in s at index i. */
  predicate OccursAt(s: string, t: string, i: int)
  {
    0 <= i && i + |t| <= |s| && s[i..i + |t|] == t
  }

  /** The largest index below n at which t occurs in s. */
  function LastBelow(s: string, t: string, n: nat): (r: Option<nat>)
    ensures r.None? ==> forall j :: 0 <= j < n ==> !OccursAt(s, t, j)
    ensures r.Some? ==> r.value < n && OccursAt(s, t, r.value)
    ensures r.Some? ==> forall j :: r.value < j < n ==> !OccursAt(s, t, j)
  {
    if n == 0 then None
    else if OccursAt(s, t, n - 1) then Some(n - 1)
    else LastBelow(s, t, n - 1)
  }

  /** The index of the last occurrence of t in s (String.lastIndexOf). */
  function LastIndexOf(s: string, t: string): (r: Option<nat>)
    ensures r.None? <==> forall j :: !OccursAt(s, t, j)
    ensures r.Some? ==> OccursAt(s, t, r.value) && forall j :: r.value < j ==> !OccursAt(s, t, j)
  {
    LastBelow(s, t, |s| + 1)
  }

  const NamespaceMarker: string := "namespace-uri()='"

  /**
   * The text between the last "namespace-uri()='" of the selector and the
   * quote that closes it; null when there is no such predicate.
   */
  function FindRecentNamespaceFromXpath(xpath: string): JString
  {
    match LastIndexOf(xpath, NamespaceMarker)
    case None => None
    case Some(i) =>
      var rest := xpath[i + |NamespaceMarker|..];
      match IndexOf(rest, '\'')
      case None => None
      case Some(j) => Some(rest[..j])
  }

  /**
   * The result is the value of the right-most namespace-uri() predicate: the
   * selector is a text, the marker, the value (without quote), a quote and a
   * text holding no further marker.
   */
  lemma FindRecentSome(xpath: string)
    requires FindRecentNamespaceFromXpath(xpath).Some?
    ensures var u := FindRecentNamespaceFromXpath(xpath).value;
      exists a, b :: xpath == a + NamespaceMarker + u + "'" + b
        && '\'' !in u && forall j :: |a| < j ==> !OccursAt(xpath, NamespaceMarker, j)
  {
    var i := LastIndexOf(xpath, NamespaceMarker).value;
    var rest := xpath[i + |NamespaceMarker|..];
    var j := IndexOf(rest, '\'').value;
    var a, u, b := xpath[..i], rest[..j], rest[j + 1..];
    assert FindRecentNamespaceFromXpath(xpath) == Some(u);
    SplitAround(xpath, i, j);
    assert |a| == i;
  }

  /** The selector cut around the marker at i and the quote j characters after it. */
  lemma SplitAround(s: string, i: nat, j: nat)
    requires OccursAt(s, NamespaceMarker, i)
    requires j < |s| - i - |NamespaceMarker| && s[i + |NamespaceMarker| + j] == '\''
    ensures var rest := s[i + |NamespaceMarker|..];
      s == s[..i] + NamespaceMarker + rest[..j] + "'" + rest[j + 1..]
  {
    var m := |NamespaceMarker|;
    var rest := s[i + m..];
    assert s == s[..i] + s[i..i + m] + rest;
    assert rest == rest[..j] + [rest[j]] + rest[j + 1..];
  }

  /** Without any namespace-uri() predicate there is no namespace. */
  lemma FindRecentNone(xpath: string)
    requires forall j :: !OccursAt(xpath, NamespaceMarker, j)
    ensures FindRecentNamespaceFromXpath(xpath).None?
  {
  }

  /** Only the first character of the marker is an 'n', so the marker cannot overlap itself. */
  lemma MarkerStartsOnce()
    ensures NamespaceMarker[0] == 'n'
    ensures forall k :: 0 < k < |NamespaceMarker| ==> NamespaceMarker[k] != 'n'
  {
  }

  /**
   * A selector whose last namespace-uri() predicate holds the value u yields
   * u, whatever precedes the predicate: the value, its closing quote and the
   * text after it hold no further marker.
   */
  lemma FindRecentLast(a: string, u: string, b: string)
    requires '\'' !in u && forall j :: !OccursAt(u + "'" + b, NamespaceMarker, j)
    ensures FindRecentNamespaceFromXpath(a + NamespaceMarker + u + "'" + b) == Some(u)
  {
    var t := u + "'" + b;
    var s := a + NamespaceMarker + t;
    assert s == a + NamespaceMarker + u + "'" + b;
    NoMarkerAfter(a, t);
    MarkerAt(a, t);
    assert s[|a| + |NamespaceMarker|..] == t;
    QuoteEnds(s, |a|, u, b);
  }

  lemma MarkerAt(a: string, t: string)
    ensures OccursAt(a + NamespaceMarker + t, NamespaceMarker, |a|)
  {
    var s := a + NamespaceMarker + t;
    assert s[|a|..|a| + |NamespaceMarker|] == NamespaceMarker;
  }

  /** After the last marker, the value runs to the first quote. */
  lemma QuoteEnds(s: string, i: nat, u: string, b: string)
    requires OccursAt(s, NamespaceMarker, i) && forall j :: i < j ==> !OccursAt(s, NamespaceMarker, j)
    requires '\'' !in u && s[i + |NamespaceMarker|..] == u + "'" + b
    ensures FindRecentNamespaceFromXpath(s) == Some(u)
  {
    assert LastIndexOf(s, NamespaceMarker) == Some(i);
    var rest := s[i + |NamespaceMarker|..];
    assert rest == u + ['\''] + b;
    IndexOfAfterFree(u, '\'', b);
    assert rest[..|u|] == u;
  }

  /**
   * A marker followed by a text without one is the last marker: the marker
   * cannot overlap itself, and a later occurrence would lie inside the text.
   */
  lemma NoMarkerAfter(a: string, t: string)
    requires forall j :: !OccursAt(t, NamespaceMarker, j)
    ensures forall j :: |a| < j ==> !OccursAt(a + NamespaceMarker + t, NamespaceMarker, j)
  {
    var s := a + NamespaceMarker + t;
    var m := |NamespaceMarker|;
    forall j | |a| < j ensures !OccursAt(s, NamespaceMarker, j) {
      if j + m <= |s| {
        if j < |a| + m {
          MarkerStartsOnce();
          assert s[j] == NamespaceMarker[j - |a|];
          assert s[j..j + m][0] == s[j];
        } else {
          var k := j - |a| - m;
          assert s[j..j + m] == t[k..k + m];
          assert !OccursAt(t, NamespaceMarker, k);
        }
      }
    }
  }

  /** A text shorter than the marker holds none. */
  lemma ShortFree(t: string)
    requires |t| < |NamespaceMarker|
    ensures forall j :: !OccursAt(t, NamespaceMarker, j)
  {
  }

  /** The marker holds a '(', so a text without one holds no marker. */
  lemma ParenFree(t: string)
    requires '(' !in t
    ensures forall j :: !OccursAt(t, NamespaceMarker, j)
  {
    forall j | 0 <= j && j + |NamespaceMarker| <= |t| ensures !OccursAt(t, NamespaceMarker, j) {
      assert NamespaceMarker[13] == '(';
      assert t[j..j + |NamespaceMarker|][13] == t[j + 13];
    }
  }

  /** A value longer than the marker, as a server configuration's namespace is. */
  lemma FindRecentDomainNamespace(xpath: string)
    requires xpath == "/*[namespace-uri()='urn:jboss:domain:1.1']"
    ensures FindRecentNamespaceFromXpath(xpath) == Some("urn:jboss:domain:1.1")
  {
    DomainTailFree();
    FindRecentLast("/*[", "urn:jboss:domain:1.1", "]");
    DomainShape();
  }

  lemma DomainTailFree()
    ensures forall j :: !OccursAt("urn:jboss:domain:1.1" + "'" + "]", NamespaceMarker, j)
  {
    var t := "urn:jboss:domain:1.1" + "'" + "]";
    assert forall k :: 0 <= k < |t| ==> t[k] != '(';
    ParenFree(t);
  }

  lemma DomainShape()
    ensures "/*[" + NamespaceMarker + "urn:jboss:domain:1.1" + "'" + "]" == "/*[namespace-uri()='urn:jboss:domain:1.1']"
  {
  }

  /** The first case the builder's tests state. */
  lemma FindRecentExampleOne(xpath: string)
    requires xpath == "/*[namespace-uri()='test']/test"
    ensures FindRecentNamespaceFromXpath(xpath) == Some("test")
  {
    ShortFree("test" + "'" + "]/test");
    FindRecentLast("/*[", "test", "]/test");
    ExampleOneShape();
  }

  lemma ExampleOneShape()
    ensures "/*[" + NamespaceMarker + "test" + "'" + "]/test" == "/*[namespace-uri()='test']/test"
  {
  }

  /** The second case: the later of two predicates wins. */
  lemma FindRecentExampleTwo(xpath: string)
    requires xpath == "/*[namespace-uri()='foo']/test/*[namespace-uri()='test']"
    ensures FindRecentNamespaceFromXpath(xpath) == Some("test")
  {
    ShortFree("test" + "'" + "]");
    FindRecentLast("/*[namespace-uri()='foo']/test/*[", "test", "]");
    ExampleTwoShape();
  }

  lemma ExampleTwoShape()
    ensures "/*[namespace-uri()='foo']/test/*[" + NamespaceMarker + "test" + "'" + "]"
      == "/*[namespace-uri()='foo']/test/*[namespace-uri()='test']"
  {
  }

  // ---------------------------------------------------------------- xpath2Namespaced

  /** The bracket depth after reading c at depth d; a stray ']' at depth 0 is ignored. */
  function NextDepth(c: char, d: nat): nat
  {
    if c == '[' then d + 1 else if c == ']' && d > 0 then d - 1 else d
  }

  /**
   * The location steps of a selector read from bracket depth d: the pieces
   * between the slashes that stand outside every predicate. A leading slash
   * gives an empty first step.
   */
  function Steps(s: string, d: nat): (r: seq<string>)
    ensures |r| >= 1
  {
    if |s| == 0 then [""]
    else if s[0] == '/' && d == 0 then [""] + Steps(s[1..], 0)
    else
      var tail := Steps(s[1..], NextDepth(s[0], d));
      [[s[0]] + tail[0]] + tail[1..]
  }

  /** The text of a step before its first predicate. */
  function NamePart(step: string): (r: string)
    ensures '[' !in r && |r| <= |step| && r == step[..|r|]
    ensures '[' !in step ==> r == step
  {
    match IndexOf(step, '[')
    case None => step
    case Some(i) => step[..i]
  }

  /**
   * A step that names an element without a prefix: not empty, not *, not an
   * attribute step, not . or .., with no axis or prefix (':') and no node
   * test such as text() ('(').
   */
  predicate Bare(step: string)
  {
    var n := NamePart(step);
    n != "" && n[0] != '*' && n[0] != '@' && n[0] != '.' && ':' !in n && '(' !in n
  }

  function QualifyStep(step: string, prefix: string): (r: string)
  {
    if Bare(step) then prefix + ":" + step else step
  }

  function QualifyAll(steps: seq<string>, prefix: string): (r: seq<string>)
    ensures |r| == |steps|
    ensures forall k :: 0 <= k < |steps| ==> r[k] == QualifyStep(steps[k], prefix)
  {
    if |steps| == 0 then [] else [QualifyStep(steps[0], prefix)] + QualifyAll(steps[1..], prefix)
  }

  /** xpath2Namespaced: every bare step of the selector gets "prefix:" in front; predicates are left alone. */
  function Xpath2Namespaced(xpath: string, prefix: string): string
  {
    Join("/", QualifyAll(Steps(xpath, 0), prefix))
  }

  /** Joining the steps again with slashes gives back the selector. */
  lemma {:induction false} JoinSteps(s: string, d: nat)
    ensures Join("/", Steps(s, d)) == s
  {
    if |s| == 0 {
    } else if s[0] == '/' && d == 0 {
      JoinSteps(s[1..], 0);
      var tail := Steps(s[1..], 0);
      assert ([""] + tail)[1..] == tail;
      assert s == "/" + s[1..];
    } else {
      var nd := NextDepth(s[0], d);
      JoinSteps(s[1..], nd);
      var tail := Steps(s[1..], nd);
      var r := [[s[0]] + tail[0]] + tail[1..];
      assert r[1..] == tail[1..];
      if |tail| == 1 {
        assert s == [s[0]] + tail[0];
      } else {
        assert Join("/", tail) == tail[0] + "/" + Join("/", tail[1..]);
        assert s == [s[0]] + s[1..];
      }
    }
  }

  /** A selector with no bare step comes out unchanged. */
  lemma NoBareUnchanged(xpath: string, prefix: string)
    requires forall k :: 0 <= k < |Steps(xpath, 0)| ==> !Bare(Steps(xpath, 0)[k])
    ensures Xpath2Namespaced(xpath, prefix) == xpath
  {
    var steps := Steps(xpath, 0);
    assert QualifyAll(steps, prefix) == steps;
    JoinSteps(xpath, 0);
  }

  /** s read from depth d never meets a slash outside the predicates. */
  predicate TopFree(s: string, d: nat)
    decreases |s|
  {
    |s| == 0 || (!(s[0] == '/' && d == 0) && TopFree(s[1..], NextDepth(s[0], d)))
  }

  /** The bracket depth after reading s from depth d. */
  function EndDepth(s: string, d: nat): nat
    decreases |s|
  {
    if |s| == 0 then d else EndDepth(s[1..], NextDepth(s[0], d))
  }

  /** A piece with no top-level slash stays glued to the first step of what follows it. */
  lemma {:induction false} StepsConcat(a: string, rest: string, d: nat)
    requires TopFree(a, d)
    ensures var t := Steps(rest, EndDepth(a, d));
      Steps(a + rest, d) == [a + t[0]] + t[1..]
  {
    if |a| > 0 {
      var nd := NextDepth(a[0], d);
      StepsConcat(a[1..], rest, nd);
      var t := Steps(rest, EndDepth(a, d));
      var tt := Steps(a[1..] + rest, nd);
      assert tt == [a[1..] + t[0]] + t[1..];
      assert (a + rest)[0] == a[0];
      assert (a + rest)[1..] == a[1..] + rest;
      assert Steps(a + rest, d) == [[a[0]] + tt[0]] + tt[1..];
      assert [a[0]] + (a[1..] + t[0]) == a + t[0];
    } else {
      var t := Steps(rest, d);
      assert a + rest == rest;
      assert a + t[0] == t[0];
      assert t == [t[0]] + t[1..];
    }
  }

  /** A slash at depth 0 starts a new step. */
  lemma StepsSlash(rest: string)
    ensures Steps("/" + rest, 0) == [""] + Steps(rest, 0)
  {
    assert ("/" + rest)[1..] == rest;
  }

  /** Text without brackets keeps the depth; without slashes, or inside a predicate, it has no top-level slash. */
  lemma {:induction false} PlainText(a: string, d: nat)
    requires '[' !in a && ']' !in a
    requires d == 0 ==> '/' !in a
    ensures TopFree(a, d) && EndDepth(a, d) == d
  {
    if |a| > 0 {
      assert a[0] in a;
      assert forall c :: c in a[1..] ==> c in a;
      PlainText(a[1..], d);
    }
  }

  /** A predicate without nested brackets has no top-level slash and closes the depth it opened. */
  lemma Predicate(q: string, d: nat)
    requires '[' !in q && ']' !in q
    ensures TopFree("[" + q + "]", d) && EndDepth("[" + q + "]", d) == d
  {
    var s := "[" + q + "]";
    assert s[1..] == q + "]";
    PlainText(q, d + 1);
    TopFreeConcat(q, "]", d + 1);
  }

  /** TopFree and EndDepth of a concatenation. */
  lemma {:induction false} TopFreeConcat(a: string, b: string, d: nat)
    ensures TopFree(a + b, d) == (TopFree(a, d) && TopFree(b, EndDepth(a, d)))
    ensures EndDepth(a + b, d) == EndDepth(b, EndDepth(a, d))
  {
    if |a| > 0 {
      assert (a + b)[0] == a[0];
      assert (a + b)[1..] == a[1..] + b;
      TopFreeConcat(a[1..], b, NextDepth(a[0], d));
    } else {
      assert a + b == b;
    }
  }

  /** Splitting from depth d gives steps whose first is read from d and the others from 0, all closed but the last. */
  lemma {:induction false} StepsAreSteps(s: string, d: nat)
    ensures var r := Steps(s, d);
      && TopFree(r[0], d) && (|r| > 1 ==> EndDepth(r[0], d) == 0)
      && ClosedSteps(r, 1)
  {
    if |s| == 0 {
    } else if s[0] == '/' && d == 0 {
      StepsAreSteps(s[1..], 0);
      var tail := Steps(s[1..], 0);
      assert Steps(s, d)[1..] == tail;
    } else {
      var nd := NextDepth(s[0], d);
      StepsAreSteps(s[1..], nd);
      var tail := Steps(s[1..], nd);
      var r := Steps(s, d);
      assert r[0][1..] == tail[0];
      assert forall k :: 1 <= k < |r| ==> r[k] == tail[k];
    }
  }

  /** From index from on, every step has no top-level slash and all but the last close their predicates. */
  predicate ClosedSteps(r: seq<string>, from: nat)
  {
    forall k :: from <= k < |r| ==> TopFree(r[k], 0) && (k < |r| - 1 ==> EndDepth(r[k], 0) == 0)
  }

  /** Closed steps joined with slashes split back into the same steps. */
  lemma {:induction false} StepsJoin(r: seq<string>)
    requires |r| >= 1 && ClosedSteps(r, 0)
    ensures Steps(Join("/", r), 0) == r
  {
    if |r| == 1 {
      StepsConcat(r[0], "", 0);
      assert r[0] + "" == r[0];
      assert Steps("", EndDepth(r[0], 0)) == [""];
      assert r == [r[0]];
    } else {
      var rest := Join("/", r[1..]);
      assert ClosedSteps(r[1..], 0) by {
        forall k | 0 <= k < |r[1..]| ensures TopFree(r[1..][k], 0) && (k < |r[1..]| - 1 ==> EndDepth(r[1..][k], 0) == 0) {
          assert r[1..][k] == r[k + 1];
        }
      }
      StepsJoin(r[1..]);
      assert Join("/", r) == r[0] + ("/" + rest);
      assert EndDepth(r[0], 0) == 0;
      StepsConcat(r[0], "/" + rest, 0);
      StepsSlash(rest);
      var t := Steps("/" + rest, 0);
      assert t == [""] + r[1..];
      assert t[1..] == r[1..];
      assert r[0] + t[0] == r[0];
      assert r == [r[0]] + r[1..];
    }
  }

  /** A prefix free of slashes and brackets changes neither the depth nor the slashes outside predicates. */
  lemma QualifyKeepsShape(step: string, prefix: string, d: nat)
    requires '/' !in prefix && '[' !in prefix && ']' !in prefix
    ensures TopFree(QualifyStep(step, prefix), d) == TopFree(step, d)
    ensures EndDepth(QualifyStep(step, prefix), d) == EndDepth(step, d)
  {
    if Bare(step) {
      var head := prefix + ":";
      assert forall c :: c in head ==> c in prefix || c == ':';
      PlainText(head, d);
      assert prefix + ":" + step == head + step;
      TopFreeConcat(head, step, d);
    }
  }

  /** A qualified step is no longer bare, so qualifying again changes nothing. */
  lemma QualifyStepTwice(step: string, prefix: string)
    requires '[' !in prefix
    ensures QualifyStep(QualifyStep(step, prefix), prefix) == QualifyStep(step, prefix)
  {
    if Bare(step) {
      var q := prefix + ":" + step;
      var n := NamePart(q);
      assert forall k :: 0 <= k <= |prefix| ==> q[k] != '[' by {
        forall k | 0 <= k <= |prefix| ensures q[k] != '[' {
          if k < |prefix| { assert q[k] == prefix[k]; assert prefix[k] in prefix; }
        }
      }
      assert |n| > |prefix|;
      assert n[|prefix|] == q[|prefix|] == ':';
    }
  }

  /** The steps of the result are the steps of the selector, each qualified when it was bare. */
  lemma Xpath2NamespacedSteps(xpath: string, prefix: string)
    requires '/' !in prefix && '[' !in prefix && ']' !in prefix
    ensures Steps(Xpath2Namespaced(xpath, prefix), 0) == QualifyAll(Steps(xpath, 0), prefix)
  {
    var r := Steps(xpath, 0);
    var q := QualifyAll(r, prefix);
    StepsAreSteps(xpath, 0);
    forall k | 0 <= k < |q| ensures TopFree(q[k], 0) && (k < |q| - 1 ==> EndDepth(q[k], 0) == 0) {
      QualifyKeepsShape(r[k], prefix, 0);
    }
    StepsJoin(q);
  }

  /** Qualifying an already qualified selector changes nothing. */
  lemma Xpath2NamespacedIdempotent(xpath: string, prefix: string)
    requires '/' !in prefix && '[' !in prefix && ']' !in prefix
    ensures Xpath2Namespaced(Xpath2Namespaced(xpath, prefix), prefix) == Xpath2Namespaced(xpath, prefix)
  {
    Xpath2NamespacedSteps(xpath, prefix);
    var q := QualifyAll(Steps(xpath, 0), prefix);
    forall k | 0 <= k < |q| ensures QualifyStep(q[k], prefix) == q[k] {
      QualifyStepTwice(Steps(xpath, 0)[k], prefix);
    }
    assert QualifyAll(q, prefix) == q;
  }

  /** A step made of a name and one predicate without nested brackets. */
  lemma NamedStep(name: string, pred: string)
    requires '/' !in name && '[' !in name && ']' !in name
    requires '[' !in pred && ']' !in pred
    ensures TopFree(name + "[" + pred + "]", 0) && EndDepth(name + "[" + pred + "]", 0) == 0
    ensures NamePart(name + "[" + pred + "]") == name
  {
    PlainText(name, 0);
    Predicate(pred, 0);
    assert name + "[" + pred + "]" == name + ("[" + pred + "]");
    TopFreeConcat(name, "[" + pred + "]", 0);
    IndexOfAfterFree(name, '[', pred + "]");
    assert name + "[" + pred + "]" == name + ['['] + (pred + "]");
  }

  /** The empty selector stays empty (whatever the prefix). */
  lemma Xpath2NamespacedEmpty(prefix: string)
    ensures Xpath2Namespaced("", prefix) == ""
  {
    assert Steps("", 0) == [""];
    assert !Bare("");
  }

  /** A name that forms a bare step by itself. */
  predicate PlainName(n: string)
  {
    '/' !in n && '[' !in n && ']' !in n && Bare(n)
  }

  /** Two bare steps both get the prefix. */
  lemma TwoBareSteps(a: string, b: string, prefix: string)
    requires PlainName(a) && PlainName(b)
    ensures Xpath2Namespaced(a + "/" + b, prefix) == prefix + ":" + a + "/" + (prefix + ":" + b)
  {
    PlainText(a, 0);
    PlainText(b, 0);
    JoinTwo("/", a, b);
    StepsJoin([a, b]);
    assert QualifyAll([a, b], prefix) == [prefix + ":" + a, prefix + ":" + b];
    JoinTwo("/", prefix + ":" + a, prefix + ":" + b);
  }

  /**
   * A rooted selector of two steps with one predicate each: the first step's
   * name is qualified when bare, the predicates are kept as they are.
   */
  lemma RootedSteps(n1: string, p1: string, n2: string, p2: string, prefix: string)
    requires '/' !in n1 && '[' !in n1 && ']' !in n1 && '/' !in n2 && '[' !in n2 && ']' !in n2
    requires '[' !in p1 && ']' !in p1 && '[' !in p2 && ']' !in p2
    requires Bare(n1) && !Bare(n2)
    ensures var s1, s2 := n1 + "[" + p1 + "]", n2 + "[" + p2 + "]";
      Xpath2Namespaced("" + "/" + s1 + "/" + s2, prefix) == "" + "/" + (prefix + ":" + s1) + "/" + s2
  {
    var s1, s2 := n1 + "[" + p1 + "]", n2 + "[" + p2 + "]";
    NamedStep(n1, p1);
    NamedStep(n2, p2);
    JoinThree("/", "", s1, s2);
    StepsJoin(["", s1, s2]);
    assert !Bare("");
    assert QualifyAll(["", s1, s2], prefix) == ["", prefix + ":" + s1, s2];
    JoinThree("/", "", prefix + ":" + s1, s2);
  }

  /** The test's case of two bare steps. */
  lemma Xpath2NamespacedExampleTwo(xpath: string, prefix: string)
    requires xpath == "test/test1" && prefix == "x"
    ensures Xpath2Namespaced(xpath, prefix) == "x:test/x:test1"
  {
    var a, b := "test", "test1";
    assert PlainName(a) && PlainName(b);
    TwoBareSteps(a, b, prefix);
    ExampleTwoSplit(xpath, a, b);
    ExampleTwoJoined(prefix, a, b);
  }

  lemma ExampleTwoSplit(xpath: string, a: string, b: string)
    requires xpath == "test/test1" && a == "test" && b == "test1"
    ensures xpath == a + "/" + b
  {
  }

  lemma ExampleTwoJoined(prefix: string, a: string, b: string)
    requires prefix == "x" && a == "test" && b == "test1"
    ensures prefix + ":" + a + "/" + (prefix + ":" + b) == "x:test/x:test1"
  {
  }

  /** The test's case of a leading slash, a bare step with a predicate, and a * step with a predicate. */
  lemma Xpath2NamespacedExampleThree(xpath: string, prefix: string)
    requires xpath == "/test[@a='x']/*[@b='y']" && prefix == "x"
    ensures Xpath2Namespaced(xpath, prefix) == "/x:test[@a='x']/*[@b='y']"
  {
    var n1, p1, n2, p2 := "test", "@a='x'", "*", "@b='y'";
    assert Bare(n1) && !Bare(n2);
    RootedSteps(n1, p1, n2, p2, prefix);
    ExampleThreeSplit(xpath, n1, p1, n2, p2);
    ExampleThreeJoined(prefix, n1, p1, n2, p2);
  }

  lemma ExampleThreeSplit(xpath: string, n1: string, p1: string, n2: string, p2: string)
    requires xpath == "/test[@a='x']/*[@b='y']"
    requires n1 == "test" && p1 == "@a='x'" && n2 == "*" && p2 == "@b='y'"
    ensures xpath == "" + "/" + (n1 + "[" + p1 + "]") + "/" + (n2 + "[" + p2 + "]")
  {
  }

  lemma ExampleThreeJoined(prefix: string, n1: string, p1: string, n2: string, p2: string)
    requires prefix == "x" && n1 == "test" && p1 == "@a='x'" && n2 == "*" && p2 == "@b='y'"
    ensures "" + "/" + (prefix + ":" + (n1 + "[" + p1 + "]")) + "/" + (n2 + "[" + p2 + "]")
      == "/x:test[@a='x']/*[@b='y']"
  {
  }

  // ---------------------------------------------------------------- element2Xpath

  /** An xmlns or xmlns:prefix attribute, which declares a namespace rather than describing the element. */
  predicate IsNamespaceDeclaration(a: Attribute)
  {
    a.name == "xmlns" || (|a.name| >= 6 && a.name[..6] == "xmlns:")
  }

  /** The attributes that identify an element: all but the namespace declarations, in document order. */
  function IdentityAttributes(attrs: seq<Attribute>): (r: seq<Attribute>)
    ensures forall a :: a in r <==> a in attrs && !IsNamespaceDeclaration(a)
    ensures |r| <= |attrs|
  {
    if |attrs| == 0 then []
    else if IsNamespaceDeclaration(attrs[0]) then IdentityAttributes(attrs[1..])
    else [attrs[0]] + IdentityAttributes(attrs[1..])
  }

  /** Dropping the declarations keeps the order: it works piece by piece. */
  lemma {:induction false} IdentityAttributesAppend(a: seq<Attribute>, b: seq<Attribute>)
    ensures IdentityAttributes(a + b) == IdentityAttributes(a) + IdentityAttributes(b)
  {
    if |a| == 0 {
      assert a + b == b;
    } else {
      assert (a + b)[0] == a[0];
      assert (a + b)[1..] == a[1..] + b;
      IdentityAttributesAppend(a[1..], b);
    }
  }

  /** The test of one attribute: @name='value'. */
  function AttributeTest(a: Attribute): string
  {
    "@" + a.name + "='" + a.value + "'"
  }

  function AttributeTests(attrs: seq<Attribute>): (r: seq<string>)
    ensures |r| == |attrs|
    ensures forall k :: 0 <= k < |attrs| ==> r[k] == AttributeTest(attrs[k])
  {
    if |attrs| == 0 then [] else [AttributeTest(attrs[0])] + AttributeTests(attrs[1..])
  }

  /** [@a1='v1' and @a2='v2'] over the identifying attributes; nothing when there are none. */
  function IdentityPredicate(attrs: seq<Attribute>): string
  {
    var ids := IdentityAttributes(attrs);
    if |ids| == 0 then "" else "[" + Join(" and ", AttributeTests(ids)) + "]"
  }

  /**
   * The prefix of the element's step: the override when one is given (even
   * for an element without a namespace), otherwise the default prefix when the
   * element has a namespace, otherwise none.
   */
  function StepPrefix(e: Element, defaultPrefix: string, overridePrefix: JString): JString
  {
    if overridePrefix.Some? then overridePrefix
    else if e.namespace != "" then Some(defaultPrefix)
    else None
  }

  /** element2Xpath: a one-step selector for the element by its name and identifying attributes. */
  function Element2Xpath(e: Element, defaultPrefix: string, overridePrefix: JString): string
  {
    "/" + QualifiedName(StepPrefix(e, defaultPrefix, overridePrefix), e.name) + IdentityPredicate(e.attributes)
  }

  /** prefix:name, or the bare name when there is no prefix. */
  function QualifiedName(prefix: JString, name: string): string
  {
    if prefix.Some? then prefix.value + ":" + name else name
  }

  /** The prefix is used exactly when an override is given or the element has a namespace, and the override wins. */
  lemma StepPrefixChoice(e: Element, defaultPrefix: string, overridePrefix: JString)
    ensures StepPrefix(e, defaultPrefix, overridePrefix).Some? <==> overridePrefix.Some? || e.namespace != ""
    ensures overridePrefix.Some? ==> StepPrefix(e, defaultPrefix, overridePrefix) == overridePrefix
    ensures overridePrefix.None? && e.namespace != "" ==> StepPrefix(e, defaultPrefix, overridePrefix) == Some(defaultPrefix)
  {
  }

  /** Namespace declarations do not show in the selector: removing them leaves it as it was. */
  lemma DeclarationsIgnored(e: Element, defaultPrefix: string, overridePrefix: JString)
    ensures Element2Xpath(e.(attributes := IdentityAttributes(e.attributes)), defaultPrefix, overridePrefix)
      == Element2Xpath(e, defaultPrefix, overridePrefix)
  {
    IdentityAttributesTwice(e.attributes);
  }

  lemma {:induction false} IdentityAttributesTwice(attrs: seq<Attribute>)
    ensures IdentityAttributes(IdentityAttributes(attrs)) == IdentityAttributes(attrs)
  {
    if |attrs| > 0 {
      IdentityAttributesTwice(attrs[1..]);
      if !IsNamespaceDeclaration(attrs[0]) {
        var r := IdentityAttributes(attrs);
        assert r[0] == attrs[0] && r[1..] == IdentityAttributes(attrs[1..]);
      }
    }
  }

  /** Attribute names and values without brackets, so the predicate holds no nested brackets. */
  predicate BracketFree(attrs: seq<Attribute>)
  {
    forall k :: 0 <= k < |attrs| ==>
      '[' !in attrs[k].name && ']' !in attrs[k].name && '[' !in attrs[k].value && ']' !in attrs[k].value
  }

  /**
   * Qualifying the selector of an element without a namespace with a prefix
   * gives the selector built with that prefix as override.
   */
  lemma QualifyElementSelector(e: Element, defaultPrefix: string, prefix: string)
    requires e.namespace == "" && PlainName(e.name) && BracketFree(e.attributes)
    requires '/' !in prefix && '[' !in prefix && ']' !in prefix
    ensures Xpath2Namespaced(Element2Xpath(e, defaultPrefix, None), prefix) == Element2Xpath(e, defaultPrefix, Some(prefix))
  {
    var pred := IdentityPredicate(e.attributes);
    var step := e.name + pred;
    SelectorStep(e.name, e.attributes);
    QualifyRootedStep(step, prefix);
    Assoc("/", e.name, pred);
    Assoc("/", prefix + ":" + e.name, pred);
    Assoc(prefix + ":", e.name, pred);
  }

  /** A bare name followed by the identity predicate of bracket-free attributes is one bare step. */
  lemma SelectorStep(name: string, attrs: seq<Attribute>)
    requires PlainName(name) && BracketFree(attrs)
    ensures TopFree(name + IdentityPredicate(attrs), 0) && Bare(name + IdentityPredicate(attrs))
  {
    var step := name + IdentityPredicate(attrs);
    var ids := IdentityAttributes(attrs);
    if |ids| == 0 {
      PlainText(name, 0);
      assert step == name;
    } else {
      var q := Join(" and ", AttributeTests(ids));
      IdentityBracketFree(attrs);
      assert step == name + "[" + q + "]";
      NamedBare(name, q);
    }
  }

  /** A plain name followed by a bracket-free predicate is a bare, top-level-free step. */
  lemma NamedBare(name: string, q: string)
    requires PlainName(name) && '[' !in q && ']' !in q
    ensures TopFree(name + "[" + q + "]", 0) && Bare(name + "[" + q + "]")
  {
    NamedStep(name, q);
    assert NamePart(name + "[" + q + "]") == name;
  }

  /** A rooted selector of one bare step gets the prefix on that step. */
  lemma QualifyRootedStep(step: string, prefix: string)
    requires TopFree(step, 0) && Bare(step)
    ensures Xpath2Namespaced("/" + step, prefix) == "/" + (prefix + ":" + step)
  {
    JoinTwo("/", "", step);
    assert "" + "/" + step == "/" + step;
    StepsJoin(["", step]);
    assert !Bare("");
    assert QualifyAll(["", step], prefix) == ["", prefix + ":" + step];
    JoinTwo("/", "", prefix + ":" + step);
    assert "" + "/" + (prefix + ":" + step) == "/" + (prefix + ":" + step);
  }

  /** The tests of bracket-free attributes joined with " and " hold no bracket. */
  lemma IdentityBracketFree(attrs: seq<Attribute>)
    requires BracketFree(attrs)
    ensures var q := Join(" and ", AttributeTests(IdentityAttributes(attrs)));
      '[' !in q && ']' !in q
  {
    var ids := IdentityAttributes(attrs);
    var tests := AttributeTests(ids);
    forall k | 0 <= k < |tests| ensures '[' !in tests[k] && ']' !in tests[k] {
      var a := ids[k];
      assert a in attrs;
      var j :| 0 <= j < |attrs| && attrs[j] == a;
      assert tests[k] == "@" + a.name + "='" + a.value + "'";
    }
    JoinFree(" and ", tests, '[');
    JoinFree(" and ", tests, ']');
  }

  /** Two identifying attributes, possibly with declarations among them, give a conjunction of two tests. */
  lemma TwoAttributeTests(a1: Attribute, a2: Attribute, decls: seq<Attribute>)
    requires !IsNamespaceDeclaration(a1) && !IsNamespaceDeclaration(a2)
    requires forall k :: 0 <= k < |decls| ==> IsNamespaceDeclaration(decls[k])
    ensures IdentityPredicate([a1] + decls + [a2]) == "[" + (AttributeTest(a1) + " and " + AttributeTest(a2)) + "]"
  {
    IdentityAttributesAppend([a1] + decls, [a2]);
    IdentityAttributesAppend([a1], decls);
    OnlyDeclarations(decls);
    assert IdentityAttributes([a1] + decls + [a2]) == [a1, a2];
    assert AttributeTests([a1, a2]) == [AttributeTest(a1), AttributeTest(a2)];
    JoinTwo(" and ", AttributeTest(a1), AttributeTest(a2));
  }

  /** Declarations alone identify nothing. */
  lemma {:induction false} OnlyDeclarations(decls: seq<Attribute>)
    requires forall k :: 0 <= k < |decls| ==> IsNamespaceDeclaration(decls[k])
    ensures IdentityAttributes(decls) == []
  {
    if |decls| > 0 {
      OnlyDeclarations(decls[1..]);
    }
  }

  /** An element without namespace or attributes, no override: the bare name. */
  lemma Element2XpathExampleOne(e: Element)
    requires e == Element("test", "", [], [])
    ensures Element2Xpath(e, "x", None) == "/test"
  {
  }

  /** The override prefix is used although the element has no namespace. */
  lemma Element2XpathExampleTwo(e: Element)
    requires e == Element("test", "", [], [])
    ensures Element2Xpath(e, "x", Some("y")) == "/y:test"
  {
  }

  /** A namespaced element gets the default prefix; its xmlns declaration is not a test. */
  lemma Element2XpathExampleThree(e: Element)
    requires e == Element("test", "foo", [Attribute("xmlns", "foo")], [])
    ensures Element2Xpath(e, "x", None) == "/x:test"
  {
  }

  /** The attributes in document order, joined with and. */
  lemma Element2XpathExampleFour(e: Element)
    requires e == Element("test", "", [Attribute("attr1", "val1"), Attribute("attr2", "val2")], [])
    ensures Element2Xpath(e, "x", None) == "/test[@attr1='val1' and @attr2='val2']"
  {
    var a1, a2 := Attribute("attr1", "val1"), Attribute("attr2", "val2");
    assert e.attributes == [a1] + [] + [a2];
    TwoAttributeTests(a1, a2, []);
    ExampleFourJoined(a1, a2);
  }

  lemma ExampleFourJoined(a1: Attribute, a2: Attribute)
    requires a1 == Attribute("attr1", "val1") && a2 == Attribute("attr2", "val2")
    ensures "/" + "test" + ("[" + (AttributeTest(a1) + " and " + AttributeTest(a2)) + "]")
      == "/test[@attr1='val1' and @attr2='val2']"
  {
    ExampleTests(a1, a2);
    Flatten("/", "test", "[", AttributeTest(a1), " and ", AttributeTest(a2), "]");
    ExampleFourText();
  }

  lemma ExampleFourText()
    ensures "/" + "test" + "[" + "@attr1='val1'" + " and " + "@attr2='val2'" + "]"
      == "/test[@attr1='val1' and @attr2='val2']"
  {
    assert "/" + "test" == "/test";
    assert "/test" + "[" == "/test[";
    assert "/test[" + "@attr1='val1'" == "/test[@attr1='val1'";
    assert "/test[@attr1='val1'" + " and " == "/test[@attr1='val1' and ";
    assert "/test[@attr1='val1' and " + "@attr2='val2'" == "/test[@attr1='val1' and @attr2='val2'";
  }

  lemma ExampleTests(a1: Attribute, a2: Attribute)
    requires a1 == Attribute("attr1", "val1") && a2 == Attribute("attr2", "val2")
    ensures AttributeTest(a1) == "@attr1='val1'" && AttributeTest(a2) == "@attr2='val2'"
  {
    assert "@" + "attr1" + "='" + "val1" + "'" == "@attr1='val1'";
    assert "@" + "attr2" + "='" + "val2" + "'" == "@attr2='val2'";
  }

  lemma Flatten(a: string, b: string, c: string, d: string, e: string, f: string, g: string)
    ensures a + b + (c + (d + e + f) + g) == a + b + c + d + e + f + g
  {
  }

  /** A namespaced element with attributes: prefix, and the declaration between them left out. */
  lemma Element2XpathExampleFive(e: Element)
    requires e == Element("test", "foo", [Attribute("attr1", "val1"), Attribute("xmlns", "foo"), Attribute("attr2", "val2")], [])
    ensures Element2Xpath(e, "x", None) == "/x:test[@attr1='val1' and @attr2='val2']"
  {
    var a1, x, a2 := Attribute("attr1", "val1"), Attribute("xmlns", "foo"), Attribute("attr2", "val2");
    assert e.attributes == [a1] + [x] + [a2];
    TwoAttributeTests(a1, a2, [x]);
    ExampleFiveJoined(a1, a2);
  }

  lemma ExampleFiveJoined(a1: Attribute, a2: Attribute)
    requires a1 == Attribute("attr1", "val1") && a2 == Attribute("attr2", "val2")
    ensures "/" + ("x" + ":" + "test") + ("[" + (AttributeTest(a1) + " and " + AttributeTest(a2)) + "]")
      == "/x:test[@attr1='val1' and @attr2='val2']"
  {
    ExampleTests(a1, a2);
    assert "x" + ":" + "test" == "x:test";
    Flatten("/", "x:test", "[", AttributeTest(a1), " and ", AttributeTest(a2), "]");
    ExampleFiveText();
  }

  lemma ExampleFiveText()
    ensures "/" + "x:test" + "[" + "@attr1='val1'" + " and " + "@attr2='val2'" + "]"
      == "/x:test[@attr1='val1' and @attr2='val2']"
  {
    assert "/" + "x:test" == "/x:test";
    assert "/x:test" + "[" == "/x:test[";
    assert "/x:test[" + "@attr1='val1'" == "/x:test[@attr1='val1'";
    assert "/x:test[@attr1='val1'" + " and " == "/x:test[@attr1='val1' and ";
    assert "/x:test[@attr1='val1' and " + "@attr2='val2'" == "/x:test[@attr1='val1' and @attr2='val2'";
  }
}
