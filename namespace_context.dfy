/**
 * The prefix-to-namespace resolver handed to the XPath engine
 * (org.wildfly.plugins.NamespaceContextImpl): a map that grows by chained
 * mapping calls; reverse lookups are not supported and answer null.
 */
module WildflyNamespaceContext {
  import opened JavaLang

  /** What HashMap.get gives: the bound value, or null for an unbound key (null keys allowed). */
  function Get(m: map<JString, JString>, key: JString): (r: JString)
    ensures key !in m ==> r.None?
    ensures key in m ==> r == m[key]
  {
    if key in m then m[key] else None
  }

  /** A later binding of the same prefix hides the earlier one. */
  lemma GetPutSame(m: map<JString, JString>, prefix: JString, uri: JString)
    ensures Get(m[prefix := uri], prefix) == uri
  {
  }

  /** Binding one prefix leaves every other prefix's answer as it was. */
  lemma GetPutOther(m: map<JString, JString>, prefix: JString, uri: JString, other: JString)
    requires other != prefix
    ensures Get(m[prefix := uri], other) == Get(m, other)
  {
  }

  /** Mapping a prefix twice is the same as mapping it once, to the second URI. */
  lemma PutPut(m: map<JString, JString>, prefix: JString, u1: JString, u2: JString)
    ensures m[prefix := u1][prefix := u2] == m[prefix := u2]
  {
  }

  class NamespaceContextImpl {
    var mapping: map<JString, JString>

    /** A new context knows no prefix. */
    constructor ()
      ensures mapping == map[]
      ensures forall p :: GetNamespaceURI(p).None?
    {
      mapping := map[];
    }

    /** Binds prefix to namespaceURI, replacing any earlier binding, and returns this for chaining. */
    method Mapping(prefix: JString, namespaceURI: JString) returns (r: NamespaceContextImpl)
      modifies this
      ensures r == this
      ensures mapping == old(mapping)[prefix := namespaceURI]
      ensures GetNamespaceURI(prefix) == namespaceURI
      ensures forall p :: p != prefix ==> GetNamespaceURI(p) == Get(old(mapping), p)
    {
      mapping := mapping[prefix := namespaceURI];
      r := this;
    }

    /** The URI last bound to prefix; null when it was never bound. */
    function GetNamespaceURI(prefix: JString): (r: JString)
      reads this
      ensures prefix !in mapping ==> r.None?
      ensures prefix in mapping ==> r == mapping[prefix]
    {
      Get(mapping, prefix)
    }

    /** Reverse lookup is not supported: always null. */
    function GetPrefix(namespaceURI: JString): (r: JString)
      ensures r.None?
    {
      None
    }

    /** Reverse lookup of all prefixes is not supported: always a null iterator. */
    function GetPrefixes(namespaceURI: JString): (r: Option<seq<JString>>)
      ensures r.None?
    {
      None
    }
  }
}
