/**
 * The few pieces of java.lang behaviour the plugin relies on: null references,
 * string concatenation of a possibly-null value, java.io.File as a path value,
 * and String.split on a single literal character.
 */
module JavaLang {

  /** A Java reference that may be null. */
  datatype Option<+T> = None | Some(value: T)

  /** A java.lang.String reference (None is null). */
  type JString = Option<string>

  /** A String[] reference whose elements may themselves be null. */
  type JStringArray = Option<seq<JString>>

  /** java.io.File, reduced to the path it was built from; its toString() is that path. */
  datatype File = File(path: string)

  /** What `"..." + s` appends for a String reference s: the text, or "null". */
  function Text(s: JString): (r: string)
    ensures s.Some? ==> r == s.value
    ensures s.None? ==> r == "null"
  {
    match s
    case None => "null"
    case Some(v) => v
  }

  /** The elements of xs separated by sep (String.join). */
  function Join(sep: string, xs: seq<string>): string
  {
    if |xs| == 0 then ""
    else if |xs| == 1 then xs[0]
    else xs[0] + sep + Join(sep, xs[1..])
  }

  /** Concatenation regroups freely. */
  lemma Assoc(a: string, b: string, c: string)
    ensures a + b + c == a + (b + c)
  {
  }

  lemma JoinTwo(sep: string, a: string, b: string)
    ensures Join(sep, [a, b]) == a + sep + b
  {
    assert [a, b][1..] == [b];
  }

  lemma JoinThree(sep: string, a: string, b: string, c: string)
    ensures Join(sep, [a, b, c]) == a + sep + b + sep + c
  {
    assert [a, b, c][1..] == [b, c];
    JoinTwo(sep, b, c);
  }

  lemma {:induction false} JoinSnoc(sep: string, xs: seq<string>, x: string)
    requires |xs| > 0
    ensures Join(sep, xs + [x]) == Join(sep, xs) + sep + x
  {
    if |xs| == 1 {
      assert xs + [x] == [xs[0], x];
      assert ([xs[0], x])[1..] == [x];
    } else {
      assert (xs + [x])[1..] == xs[1..] + [x];
      JoinSnoc(sep, xs[1..], x);
    }
  }

  /** Index of the first occurrence of c in s, if any (String.indexOf). */
  function IndexOf(s: string, c: char): (r: Option<nat>)
    ensures r.None? <==> c !in s
    ensures r.Some? ==> r.value < |s| && s[r.value] == c && c !in s[..r.value]
  {
    if |s| == 0 then None
    else if s[0] == c then Some(0)
    else
      match IndexOf(s[1..], c)
      case None => None
      case Some(i) =>
        assert s[..i + 1] == [s[0]] + s[1..][..i];
        Some(i + 1)
  }

  /** Where the first c in s lies when s is made of a c-free part followed by c. */
  lemma {:induction false} IndexOfAfterFree(u: string, c: char, rest: string)
    requires c !in u
    ensures IndexOf(u + [c] + rest, c) == Some(|u|)
  {
    var s := u + [c] + rest;
    assert s[|u|] == c;
    assert s[..|u|] == u;
  }

  /**
   * Every piece of s between occurrences of c, empty pieces included;
   * the first half of String.split before trailing empty strings are removed.
   */
  function SplitAll(s: string, c: char): (r: seq<string>)
    ensures |r| >= 1
    ensures forall i :: 0 <= i < |r| ==> c !in r[i]
  {
    if |s| == 0 then [""]
    else if s[0] == c then [""] + SplitAll(s[1..], c)
    else
      var tail := SplitAll(s[1..], c);
      [[s[0]] + tail[0]] + tail[1..]
  }

  /** Splitting and joining again with the separator gives back the string. */
  lemma {:induction false} JoinSplitAll(s: string, c: char)
    ensures Join([c], SplitAll(s, c)) == s
  {
    if |s| == 0 {
    } else if s[0] == c {
      JoinSplitAll(s[1..], c);
      var tail := SplitAll(s[1..], c);
      assert SplitAll(s, c) == [""] + tail;
      assert ([""] + tail)[1..] == tail;
      assert s == [c] + s[1..];
    } else {
      JoinSplitAll(s[1..], c);
      var tail := SplitAll(s[1..], c);
      var r := [[s[0]] + tail[0]] + tail[1..];
      assert r[1..] == tail[1..];
      if |tail| == 1 {
        assert s == [s[0]] + tail[0];
      } else {
        assert Join([c], tail) == tail[0] + [c] + Join([c], tail[1..]);
        assert s == [s[0]] + s[1..];
      }
    }
  }

  /** Splitting a + c + b at c splits a and b separately. */
  lemma {:induction false} SplitAllAppend(a: string, c: char, b: string)
    ensures SplitAll(a + [c] + b, c) == SplitAll(a, c) + SplitAll(b, c)
  {
    if |a| == 0 {
      assert a + [c] + b == [c] + b;
      assert ([c] + b)[1..] == b;
    } else {
      var s := a + [c] + b;
      assert s[0] == a[0];
      assert s[1..] == a[1..] + [c] + b;
      SplitAllAppend(a[1..], c, b);
    }
  }

  /** A string without c is one piece. */
  lemma {:induction false} SplitAllFree(s: string, c: char)
    requires c !in s
    ensures SplitAll(s, c) == [s]
  {
    if |s| > 0 {
      SplitAllFree(s[1..], c);
      assert s == [s[0]] + s[1..];
    }
  }

  /** Drops the empty strings at the end of xs. */
  function DropTrailingEmpty(xs: seq<string>): (r: seq<string>)
    ensures |r| <= |xs| && r == xs[..|r|]
    ensures |r| > 0 ==> r[|r| - 1] != ""
    ensures forall i :: |r| <= i < |xs| ==> xs[i] == ""
  {
    if |xs| == 0 then []
    else if xs[|xs| - 1] == "" then DropTrailingEmpty(xs[..|xs| - 1])
    else xs
  }

  /**
   * s.split(c) for a character c with no special meaning in a regular
   * expression: a string without c is returned whole (even when empty);
   * otherwise the pieces, with trailing empty pieces removed.
   */
  function JavaSplit(s: string, c: char): (r: seq<string>)
    ensures c !in s ==> r == [s]
    ensures c in s ==> r == DropTrailingEmpty(SplitAll(s, c))
  {
    if c !in s then [s] else DropTrailingEmpty(SplitAll(s, c))
  }

  /** A character in neither the separator nor any element is not in the joined string. */
  lemma {:induction false} JoinFree(sep: string, xs: seq<string>, c: char)
    requires c !in sep
    requires forall k :: 0 <= k < |xs| ==> c !in xs[k]
    ensures c !in Join(sep, xs)
  {
    if |xs| > 1 {
      JoinFree(sep, xs[1..], c);
    }
  }

  /** Pieces without c, joined with c, split back into the same pieces. */
  lemma {:induction false} SplitJoin(c: char, xs: seq<string>)
    requires |xs| >= 1
    requires forall k :: 0 <= k < |xs| ==> c !in xs[k]
    ensures SplitAll(Join([c], xs), c) == xs
  {
    if |xs| == 1 {
      SplitAllFree(xs[0], c);
    } else {
      SplitJoin(c, xs[1..]);
      SplitAllAppend(xs[0], c, Join([c], xs[1..]));
      SplitAllFree(xs[0], c);
      assert xs == [xs[0]] + xs[1..];
    }
  }
}
