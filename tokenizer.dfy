/**
  Splitting a decoded text span into the tokens that the usage scanner feeds
  to the type-component decomposition: the pieces between whitespace or
  newline characters, with the empty pieces dropped.
 */
module Tokenizer {

  /**
    Membership in the whitespace-and-newline character set: U+0009 to U+000D,
    U+0085 and the Unicode space separators, line separator and paragraph
    separator.
   */
  predicate IsWhitespace(c: char)
  {
    c == ' ' || ('\t' <= c <= '\r') || c == '\U{85}' || c == '\U{A0}' || c == '\U{1680}'
    || ('\U{2000}' <= c <= '\U{200A}') || c == '\U{2028}' || c == '\U{2029}'
    || c == '\U{202F}' || c == '\U{205F}' || c == '\U{3000}'
  }

  predicate NoWhitespace(s: string)
  {
    forall i :: 0 <= i < |s| ==> !IsWhitespace(s[i])
  }

  /**
    `components(separatedBy:)`: the pieces of `s` between separator
    characters, empty pieces included, so there is always one piece more than
    there are separators.
   */
  function Components(s: string): (r: seq<string>)
    ensures |r| >= 1
    ensures forall t :: t in r ==> NoWhitespace(t)
  {
    if s == [] then [""]
    else
      var rest := Components(s[1..]);
      if IsWhitespace(s[0]) then [""] + rest
      else
        assert rest[0] in rest;
        assert forall t :: t in rest[1..] ==> t in rest;
        [[s[0]] + rest[0]] + rest[1..]
  }

  /** The number of separator characters in `s`. */
  function Separators(s: string): nat
  {
    if s == [] then 0 else (if IsWhitespace(s[0]) then 1 else 0) + Separators(s[1..])
  }

  /** There is always one piece more than there are separators. */
  lemma {:induction false} ComponentsCount(s: string)
    ensures |Components(s)| == Separators(s) + 1
  {
    if s != [] {
      ComponentsCount(s[1..]);
    }
  }

  /** `filter { !$0.isEmpty }`, keeping the order. */
  function NonEmpty(cs: seq<string>): (r: seq<string>)
    ensures forall t :: t in r <==> t in cs && t != ""
  {
    if cs == [] then []
    else (if cs[0] == "" then [] else [cs[0]]) + NonEmpty(cs[1..])
  }

  /** The tokens of a text span: the maximal non-empty runs of non-whitespace characters. */
  function Tokens(s: string): (r: seq<string>)
    ensures forall t :: t in r ==> t != "" && NoWhitespace(t)
  {
    NonEmpty(Components(s))
  }

  /** The characters of `s` that are not whitespace, in order. */
  function Strip(s: string): string
  {
    if s == [] then []
    else (if IsWhitespace(s[0]) then [] else [s[0]]) + Strip(s[1..])
  }

  function Flatten(cs: seq<string>): string
  {
    if cs == [] then [] else cs[0] + Flatten(cs[1..])
  }

  lemma {:induction false} FlattenAppend(a: seq<string>, b: seq<string>)
    ensures Flatten(a + b) == Flatten(a) + Flatten(b)
  {
    if a != [] {
      assert (a + b)[0] == a[0];
      assert (a + b)[1..] == a[1..] + b;
      FlattenAppend(a[1..], b);
    } else {
      assert a + b == b;
    }
  }

  lemma {:induction false} ComponentsFlatten(s: string)
    ensures Flatten(Components(s)) == Strip(s)
  {
    if s != [] {
      var rest := Components(s[1..]);
      ComponentsFlatten(s[1..]);
      if IsWhitespace(s[0]) {
        assert Flatten([""] + rest) == Flatten(rest);
      } else {
        assert rest == [rest[0]] + rest[1..];
        assert Flatten(rest) == rest[0] + Flatten(rest[1..]);
        var r := [[s[0]] + rest[0]] + rest[1..];
        assert r[1..] == rest[1..];
        assert Flatten(r) == [s[0]] + rest[0] + Flatten(rest[1..]);
      }
    }
  }

  lemma {:induction false} NonEmptyFlatten(cs: seq<string>)
    ensures Flatten(NonEmpty(cs)) == Flatten(cs)
  {
    if cs != [] {
      NonEmptyFlatten(cs[1..]);
      var head := if cs[0] == "" then [] else [cs[0]];
      FlattenAppend(head, NonEmpty(cs[1..]));
      if cs[0] != "" {
        assert Flatten(head) == cs[0] + Flatten([]);
      }
    }
  }

  lemma {:induction false} NonEmptyAppend(a: seq<string>, b: seq<string>)
    ensures NonEmpty(a + b) == NonEmpty(a) + NonEmpty(b)
  {
    if a != [] {
      assert (a + b)[0] == a[0];
      assert (a + b)[1..] == a[1..] + b;
      NonEmptyAppend(a[1..], b);
    } else {
      assert a + b == b;
    }
  }

  /** Joining the tokens gives back the span with its whitespace removed: no character is lost. */
  lemma TokensFlatten(s: string)
    ensures Flatten(Tokens(s)) == Strip(s)
  {
    NonEmptyFlatten(Components(s));
    ComponentsFlatten(s);
  }

  /** Gluing a character onto the first piece commutes with appending more pieces. */
  lemma GlueAppend(c: char, x: seq<string>, y: seq<string>)
    requires |x| >= 1
    ensures [[c] + (x + y)[0]] + (x + y)[1..] == ([[c] + x[0]] + x[1..]) + y
  {
    assert (x + y)[0] == x[0];
    assert (x + y)[1..] == x[1..] + y;
  }

  lemma {:induction false} ComponentsSplit(a: string, w: char, b: string)
    requires IsWhitespace(w)
    ensures Components(a + [w] + b) == Components(a) + Components(b)
  {
    var s := a + [w] + b;
    if a == [] {
      assert s == [w] + b;
      assert s[1..] == b;
    } else {
      var t := a[1..] + [w] + b;
      assert s[0] == a[0];
      assert s[1..] == t;
      ComponentsSplit(a[1..], w, b);
      if !IsWhitespace(a[0]) {
        GlueAppend(a[0], Components(a[1..]), Components(b));
      }
    }
  }

  /** A whitespace character always ends a token: tokens never span a separator. */
  lemma TokensSplit(s: string, i: nat)
    requires i < |s| && IsWhitespace(s[i])
    ensures Tokens(s) == Tokens(s[..i]) + Tokens(s[i + 1..])
  {
    assert s == s[..i] + [s[i]] + s[i + 1..];
    ComponentsSplit(s[..i], s[i], s[i + 1..]);
    NonEmptyAppend(Components(s[..i]), Components(s[i + 1..]));
  }

  lemma {:induction false} ComponentsOfWord(s: string)
    requires NoWhitespace(s)
    ensures Components(s) == [s]
  {
    if s != [] {
      ComponentsOfWord(s[1..]);
      assert [s[0]] + s[1..] == s;
    }
  }

  /** A non-empty run without whitespace is a single token. */
  lemma TokensOfWord(s: string)
    requires s != "" && NoWhitespace(s)
    ensures Tokens(s) == [s]
  {
    ComponentsOfWord(s);
    assert [s][1..] == [];
    assert NonEmpty([s]) == [s] + NonEmpty([]);
  }

  lemma {:induction false} ComponentsOfBlank(s: string)
    requires forall i :: 0 <= i < |s| ==> IsWhitespace(s[i])
    ensures forall t :: t in Components(s) ==> t == ""
  {
    if s != [] {
      ComponentsOfBlank(s[1..]);
    }
  }

  lemma {:induction false} NonEmptyOfBlanks(cs: seq<string>)
    requires forall t :: t in cs ==> t == ""
    ensures NonEmpty(cs) == []
  {
    if cs != [] {
      assert cs[0] in cs;
      assert forall t :: t in cs[1..] ==> t in cs;
      NonEmptyOfBlanks(cs[1..]);
    }
  }

  /** A span made only of whitespace has no tokens. */
  lemma TokensOfBlank(s: string)
    requires forall i :: 0 <= i < |s| ==> IsWhitespace(s[i])
    ensures Tokens(s) == []
  {
    ComponentsOfBlank(s);
    NonEmptyOfBlanks(Components(s));
  }
}
