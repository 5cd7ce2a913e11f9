/**
  The usage scanner: the per-file worker that lists every type name a file
  refers to, from inheritance lists, extension names, the text after each
  top-level declaration's name, and (when the SourceKit-based collector is
  compiled in) the type annotations of nested members.

  `tc` stands for the type-component decomposition of a type expression and
  `decode` for UTF-8 decoding of a byte span; both are supplied by the caller.
 */
module UsageScan {
  import opened Syntax
  import opened Tokenizer

  /** The byte span `[start, end)` is inside the content whenever it is read at all. */
  predicate SpanFits(content: seq<Byte>, start: int, end: int)
  {
    0 < start < end ==> end <= |content|
  }

  /**
    `parseContent`: nothing unless `0 < start < end`; otherwise the span
    `[start, end)` is decoded and the type components of its tokens are
    returned (nothing when the span is not valid UTF-8).
   */
  function ParseContent(content: seq<Byte>, start: int, end: int,
                        decode: seq<Byte> -> Option<string>, tc: string -> seq<string>): (r: seq<string>)
    requires SpanFits(content, start, end)
    ensures !(0 < start < end) ==> r == []
    ensures 0 < start < end && decode(content[start..end]).None? ==> r == []
  {
    if !(0 < start < end) then []
    else
      match decode(content[start..end])
      case Some(str) => FlatMap(tc, Tokens(str))
      case None => []
  }

  /**
    When the span is read and decodes, a name is returned exactly when it is
    a type component of one of the span's tokens.
   */
  lemma ParseContentMembership(content: seq<Byte>, start: int, end: int,
                               decode: seq<Byte> -> Option<string>, tc: string -> seq<string>)
    requires SpanFits(content, start, end)
    requires 0 < start < end && decode(content[start..end]).Some?
    ensures forall x :: x in ParseContent(content, start, end, decode, tc) <==>
                        exists t :: t in Tokens(decode(content[start..end]).value) && x in tc(t)
  {
    FlatMapMembership(tc, Tokens(decode(content[start..end]).value));
  }

  function GenericParamNames(sub: Node, tc: string -> seq<string>): seq<string>
  {
    if sub.kind.GenericTypeParam? then tc(sub.name) else []
  }

  function ParameterTypes(sub: Node, tc: string -> seq<string>): seq<string>
  {
    if sub.kind.ParameterVar? then tc(sub.typeName) else []
  }

  function CalleeNames(sub: Node, tc: string -> seq<string>): seq<string>
  {
    if sub.kind.CallExpr? then tc(sub.name) else []
  }

  function VariableTypes(sub: Node, tc: string -> seq<string>): seq<string>
  {
    if (sub.isVariable || sub.kind.LocalVar?) && sub.typeName != UnknownVal then tc(sub.typeName) else []
  }

  function MethodTypes(sub: Node, tc: string -> seq<string>): seq<string>
  {
    if (sub.isMethod || sub.kind.ClassMethod?) && !IsVoidLike(sub.typeName) then tc(sub.typeName) else []
  }

  /** What `gatherUsedDecls` records for one nested node, before descending into it. */
  function Contribution(sub: Node, tc: string -> seq<string>): seq<string>
  {
    GenericParamNames(sub, tc) + ParameterTypes(sub, tc) + CalleeNames(sub, tc)
    + VariableTypes(sub, tc) + MethodTypes(sub, tc)
  }

  /** The accumulated list after `gatherUsedDecls` has walked the subtree below `n`. */
  function GatherFrom(acc: seq<string>, n: Node, tc: string -> seq<string>): seq<string>
    decreases n
  {
    GatherListFrom(acc, n.substructures, tc)
  }

  function GatherListFrom(acc: seq<string>, subs: seq<Node>, tc: string -> seq<string>): seq<string>
    decreases subs
  {
    if subs == [] then acc
    else GatherListFrom(GatherFrom(acc + Contribution(subs[0], tc), subs[0], tc), subs[1..], tc)
  }

  /** The strict descendants of `n`, in pre-order. */
  function Descendants(n: Node): seq<Node>
  {
    DescendantList(n.substructures)
  }

  function DescendantList(subs: seq<Node>): seq<Node>
  {
    if subs == [] then []
    else [subs[0]] + Descendants(subs[0]) + DescendantList(subs[1..])
  }

  function ContributionOf(tc: string -> seq<string>): Node -> seq<string>
  {
    (d: Node) => Contribution(d, tc)
  }

  /** Everything the collector gathers below `n`: the contributions of all descendants, in pre-order. */
  function Gathered(n: Node, tc: string -> seq<string>): seq<string>
  {
    FlatMap(ContributionOf(tc), Descendants(n))
  }

  lemma {:induction false} GatherFromAppends(acc: seq<string>, n: Node, tc: string -> seq<string>)
    ensures GatherFrom(acc, n, tc) == acc + Gathered(n, tc)
    decreases n
  {
    GatherListFromAppends(acc, n.substructures, tc);
  }

  lemma {:induction false} GatherListFromAppends(acc: seq<string>, subs: seq<Node>, tc: string -> seq<string>)
    ensures GatherListFrom(acc, subs, tc) == acc + FlatMap(ContributionOf(tc), DescendantList(subs))
    decreases subs
  {
    var f := ContributionOf(tc);
    if subs == [] {
      assert acc + [] == acc;
    } else {
      var c := subs[0];
      var a1 := acc + Contribution(c, tc);
      GatherFromAppends(a1, c, tc);
      var a2 := GatherFrom(a1, c, tc);
      GatherListFromAppends(a2, subs[1..], tc);
      var rest := FlatMap(f, DescendantList(subs[1..]));
      assert a2 == (acc + f(c)) + Gathered(c, tc);
      FlatMapAppend(f, [c] + Descendants(c), DescendantList(subs[1..]));
      FlatMapAppend(f, [c], Descendants(c));
      assert FlatMap(f, [c]) == f(c) by {
        assert [c][..0] == [];
      }
      calc {
        FlatMap(f, DescendantList(subs));
        { assert DescendantList(subs) == ([c] + Descendants(c)) + DescendantList(subs[1..]); }
        FlatMap(f, ([c] + Descendants(c)) + DescendantList(subs[1..]));
        FlatMap(f, [c] + Descendants(c)) + rest;
        (f(c) + Gathered(c, tc)) + rest;
      }
      calc {
        GatherListFrom(acc, subs, tc);
        GatherListFrom(a2, subs[1..], tc);
        a2 + rest;
        ((acc + f(c)) + Gathered(c, tc)) + rest;
        { Assoc(acc, f(c), Gathered(c, tc)); }
        (acc + (f(c) + Gathered(c, tc))) + rest;
        { Assoc(acc, f(c) + Gathered(c, tc), rest); }
        acc + ((f(c) + Gathered(c, tc)) + rest);
      }
    }
  }

  /**
    The recursive collector is conservative and exact: a name is gathered
    below `n` exactly when some descendant of `n` contributes it.
   */
  lemma GatheredMembership(n: Node, tc: string -> seq<string>)
    ensures forall x :: x in Gathered(n, tc) <==> exists d :: d in Descendants(n) && x in Contribution(d, tc)
  {
    FlatMapMembership(ContributionOf(tc), Descendants(n));
  }

  /** `gatherUsedDecls`: appends to `results` the names collected from the subtree below `current`. */
  method GatherUsedDecls(current: Node, results: seq<string>, tc: string -> seq<string>)
    returns (out: seq<string>)
    ensures out == results + Gathered(current, tc)
    decreases current
  {
    out := results;
    var subs := current.substructures;
    for i := 0 to |subs|
      invariant GatherListFrom(out, subs[i..], tc) == GatherFrom(results, current, tc)
    {
      var sub := subs[i];
      ghost var s0 := out;
      ghost var g := GenericParamNames(sub, tc);
      ghost var p := ParameterTypes(sub, tc);
      ghost var c := CalleeNames(sub, tc);
      ghost var v := VariableTypes(sub, tc);
      ghost var m := MethodTypes(sub, tc);
      if sub.kind.GenericTypeParam? {
        out := out + tc(sub.name);
      }
      assert out == s0 + g;
      if sub.kind.ParameterVar? {
        out := out + tc(sub.typeName);
      }
      assert out == s0 + (g + p) by {
        Assoc(s0, g, p);
      }
      if sub.kind.CallExpr? {
        out := out + tc(sub.name);
      }
      assert out == s0 + (g + p + c) by {
        Assoc(s0, g + p, c);
      }
      if (sub.isVariable || sub.kind.LocalVar?) && sub.typeName != UnknownVal {
        out := out + tc(sub.typeName);
      }
      assert out == s0 + (g + p + c + v) by {
        Assoc(s0, g + p + c, v);
      }
      if (sub.isMethod || sub.kind.ClassMethod?) && !IsVoidLike(sub.typeName) {
        out := out + tc(sub.typeName);
      }
      assert out == s0 + Contribution(sub, tc) by {
        Assoc(s0, g + p + c + v, m);
      }
      out := GatherUsedDecls(sub, out, tc);
      GatherFromAppends(s0 + Contribution(sub, tc), sub, tc);
      assert subs[i..][1..] == subs[i + 1..];
    }
    GatherFromAppends(results, current, tc);
  }

  /** What a top-level node contributes through its inheritance list or, for an extension, its name. */
  function DeclaredUsage(n: Node, tc: string -> seq<string>): seq<string>
  {
    if n.isClass then FlatMap(tc, n.inheritedTypes) else if n.isExtension then [n.name] else []
  }

  function GlobalVarTypes(n: Node, tc: string -> seq<string>): seq<string>
  {
    if n.kind.GlobalVar? && !IsVoidLike(n.typeName) then tc(n.typeName) else []
  }

  function FreeFunctionTypes(n: Node, tc: string -> seq<string>): seq<string>
  {
    if n.kind.FreeFunction? && !IsVoidLike(n.typeName) then tc(n.typeName) else []
  }

  /** The names recorded for a top-level node inside the compile-time SourceKit block. */
  function SourceKitUsage(n: Node, tc: string -> seq<string>): seq<string>
  {
    GlobalVarTypes(n, tc) + CalleeNames(n, tc) + FreeFunctionTypes(n, tc) + Gathered(n, tc)
  }

  /** The span after a node's name, up to the end of its full range. */
  predicate BodySpanFits(n: Node, content: seq<Byte>)
  {
    SpanFits(content, n.nameOffset + n.nameLength, n.offset + n.length)
  }

  predicate AllBodySpansFit(nodes: seq<Node>, content: seq<Byte>)
  {
    forall i :: 0 <= i < |nodes| ==> BodySpanFits(nodes[i], content)
  }

  function BodyUsage(n: Node, content: seq<Byte>, decode: seq<Byte> -> Option<string>,
                     tc: string -> seq<string>): seq<string>
    requires BodySpanFits(n, content)
  {
    ParseContent(content, n.nameOffset + n.nameLength, n.offset + n.length, decode, tc)
  }

  /** Everything one top-level node contributes to the file's usage list, in the order it is appended. */
  function NodeUsage(n: Node, content: seq<Byte>, useSourceKit: bool,
                     decode: seq<Byte> -> Option<string>, tc: string -> seq<string>): seq<string>
    requires BodySpanFits(n, content)
  {
    DeclaredUsage(n, tc) + BodyUsage(n, content, decode, tc) + (if useSourceKit then SourceKitUsage(n, tc) else [])
  }

  /** The usage list of a file: the contributions of its top-level nodes, in order. */
  function FileUsages(nodes: seq<Node>, content: seq<Byte>, useSourceKit: bool,
                      decode: seq<Byte> -> Option<string>, tc: string -> seq<string>): seq<string>
    requires AllBodySpansFit(nodes, content)
  {
    if nodes == [] then []
    else
      assert BodySpanFits(nodes[0], content);
      NodeUsage(nodes[0], content, useSourceKit, decode, tc) + FileUsages(nodes[1..], content, useSourceKit, decode, tc)
  }

  /**
    The body of the compile-time SourceKit block for one top-level node: the
    type of a global variable, the callee of a call, the type of a free
    function, then everything gathered from the node's nested structure.
   */
  method AppendSourceKitUsage(current: Node, results: seq<string>, tc: string -> seq<string>)
    returns (out: seq<string>)
    ensures out == results + SourceKitUsage(current, tc)
  {
    ghost var global := GlobalVarTypes(current, tc);
    ghost var callee := CalleeNames(current, tc);
    ghost var free := FreeFunctionTypes(current, tc);
    out := results;
    if current.kind.GlobalVar? && !IsVoidLike(current.typeName) {
      out := out + tc(current.typeName);
    }
    assert out == results + global;
    if current.kind.CallExpr? {
      out := out + tc(current.name);
    }
    assert out == results + (global + callee) by {
      Assoc(results, global, callee);
    }
    if current.kind.FreeFunction? && !IsVoidLike(current.typeName) {
      out := out + tc(current.typeName);
    }
    assert out == results + (global + callee + free) by {
      Assoc(results, global + callee, free);
    }
    out := GatherUsedDecls(current, out, tc);
    assert out == results + SourceKitUsage(current, tc) by {
      Assoc(results, global + callee + free, Gathered(current, tc));
    }
  }

  /** Peeling the node at position `i` off the usage list of the suffix that starts there. */
  lemma FileUsagesStep(nodes: seq<Node>, content: seq<Byte>, useSourceKit: bool,
                       decode: seq<Byte> -> Option<string>, tc: string -> seq<string>, i: nat)
    requires i < |nodes| && AllBodySpansFit(nodes[i..], content)
    ensures AllBodySpansFit(nodes[i + 1..], content) && BodySpanFits(nodes[i], content)
    ensures FileUsages(nodes[i..], content, useSourceKit, decode, tc)
            == NodeUsage(nodes[i], content, useSourceKit, decode, tc) + FileUsages(nodes[i + 1..], content, useSourceKit, decode, tc)
  {
    assert nodes[i..][0] == nodes[i];
    assert nodes[i..][1..] == nodes[i + 1..];
  }

  /** The first step of the scanner's loop: a class's inherited type components, or an extension's name. */
  method AppendDeclaredUsage(current: Node, results: seq<string>, tc: string -> seq<string>)
    returns (out: seq<string>)
    ensures out == results + DeclaredUsage(current, tc)
  {
    out := results;
    if current.isClass {
      out := out + FlatMap(tc, current.inheritedTypes);
    } else if current.isExtension {
      out := out + [current.name];
    } else {
      assert out == results + [];
    }
  }

  /** The second step of the scanner's loop: the type components of the text after the node's name. */
  method AppendBodyUsage(current: Node, results: seq<string>, content: seq<Byte>,
                         decode: seq<Byte> -> Option<string>, tc: string -> seq<string>)
    returns (out: seq<string>)
    requires BodySpanFits(current, content)
    ensures out == results + BodyUsage(current, content, decode, tc)
  {
    var ret := ParseContent(content, current.nameOffset + current.nameLength,
                            current.offset + current.length, decode, tc);
    out := results + ret;
  }

  /** Three appends in a row append their concatenation. */
  lemma AppendThree(results: seq<string>, a: seq<string>, b: seq<string>, c: seq<string>,
                    s1: seq<string>, s2: seq<string>, s3: seq<string>)
    requires s1 == results + a && s2 == s1 + b && s3 == s2 + c
    ensures s3 == results + (a + b + c)
  {
    Assoc(results, a, b);
    Assoc(results, a + b, c);
  }

  lemma NodeUsageParts(n: Node, content: seq<Byte>, useSourceKit: bool,
                       decode: seq<Byte> -> Option<string>, tc: string -> seq<string>)
    requires BodySpanFits(n, content)
    ensures NodeUsage(n, content, useSourceKit, decode, tc)
            == DeclaredUsage(n, tc) + BodyUsage(n, content, decode, tc)
               + (if useSourceKit then SourceKitUsage(n, tc) else [])
  {
  }

  /** The body of the scanner's loop for one top-level node: appends that node's usage list. */
  method AppendNodeUsage(current: Node, results: seq<string>, content: seq<Byte>, useSourceKit: bool,
                         decode: seq<Byte> -> Option<string>, tc: string -> seq<string>)
    returns (out: seq<string>)
    requires BodySpanFits(current, content)
    ensures out == results + NodeUsage(current, content, useSourceKit, decode, tc)
  {
    var withDeclared := AppendDeclaredUsage(current, results, tc);
    var withBody := AppendBodyUsage(current, withDeclared, content, decode, tc);
    if useSourceKit {
      out := AppendSourceKitUsage(current, withBody, tc);
    } else {
      out := withBody;
      assert out == withBody + [];
    }
    AppendThree(results, DeclaredUsage(current, tc), BodyUsage(current, content, decode, tc),
                if useSourceKit then SourceKitUsage(current, tc) else [], withDeclared, withBody, out);
    NodeUsageParts(current, content, useSourceKit, decode, tc);
  }

  /**
    `scanUsedDecls` for one file: None when the path filter rejects it,
    otherwise the usage list of all its top-level nodes, in order.
   */
  method ScanUsedDecls(path: string, shouldParse: string -> bool, nodes: seq<Node>, content: seq<Byte>,
                       useSourceKit: bool, decode: seq<Byte> -> Option<string>, tc: string -> seq<string>)
    returns (r: Option<seq<string>>)
    requires AllBodySpansFit(nodes, content)
    ensures r.None? <==> !shouldParse(path)
    ensures r.Some? ==> r.value == FileUsages(nodes, content, useSourceKit, decode, tc)
  {
    if !shouldParse(path) {
      return None;
    }
    var results: seq<string> := [];
    for i := 0 to |nodes|
      invariant AllBodySpansFit(nodes[i..], content)
      invariant results + FileUsages(nodes[i..], content, useSourceKit, decode, tc)
                == FileUsages(nodes, content, useSourceKit, decode, tc)
    {
      FileUsagesStep(nodes, content, useSourceKit, decode, tc, i);
      ghost var before := results;
      results := AppendNodeUsage(nodes[i], results, content, useSourceKit, decode, tc);
      Assoc(before, NodeUsage(nodes[i], content, useSourceKit, decode, tc),
               FileUsages(nodes[i + 1..], content, useSourceKit, decode, tc));
    }
    assert results + [] == results;
    r := Some(results);
  }

  /** A name is in a file's usage list exactly when one of its top-level nodes contributes it. */
  lemma {:induction false} FileUsagesMembership(nodes: seq<Node>, content: seq<Byte>, useSourceKit: bool,
                                                decode: seq<Byte> -> Option<string>, tc: string -> seq<string>)
    requires AllBodySpansFit(nodes, content)
    ensures forall x :: x in FileUsages(nodes, content, useSourceKit, decode, tc) <==>
                        exists i :: 0 <= i < |nodes| && x in NodeUsage(nodes[i], content, useSourceKit, decode, tc)
  {
    if nodes != [] {
      var rest := nodes[1..];
      assert AllBodySpansFit(rest, content);
      FileUsagesMembership(rest, content, useSourceKit, decode, tc);
      forall x
        ensures x in FileUsages(nodes, content, useSourceKit, decode, tc) <==>
                exists i :: 0 <= i < |nodes| && x in NodeUsage(nodes[i], content, useSourceKit, decode, tc)
      {
        if x in FileUsages(nodes, content, useSourceKit, decode, tc) {
          if x in FileUsages(rest, content, useSourceKit, decode, tc) {
            var j :| 0 <= j < |rest| && x in NodeUsage(rest[j], content, useSourceKit, decode, tc);
            assert rest[j] == nodes[j + 1];
          }
        } else {
          assert x !in NodeUsage(nodes[0], content, useSourceKit, decode, tc);
          assert x !in FileUsages(rest, content, useSourceKit, decode, tc);
          forall i | 0 <= i < |nodes|
            ensures x !in NodeUsage(nodes[i], content, useSourceKit, decode, tc)
          {
            if i > 0 {
              assert nodes[i] == rest[i - 1];
            }
          }
        }
      }
    }
  }

  /**
    Conservativeness: every reference the scanner is designed to see keeps
    its name in the file's usage list, whether it comes from a class's
    inheritance list, an extension, the text after a declaration's name, or
    (with the SourceKit collector) a nested member's type annotation.
   */
  lemma ReferencesAreCollected(nodes: seq<Node>, content: seq<Byte>, useSourceKit: bool,
                               decode: seq<Byte> -> Option<string>, tc: string -> seq<string>, i: nat)
    requires AllBodySpansFit(nodes, content)
    requires i < |nodes|
    ensures nodes[i].isClass ==>
              forall t, x :: t in nodes[i].inheritedTypes && x in tc(t) ==>
                             x in FileUsages(nodes, content, useSourceKit, decode, tc)
    ensures !nodes[i].isClass && nodes[i].isExtension ==>
              nodes[i].name in FileUsages(nodes, content, useSourceKit, decode, tc)
    ensures forall x :: x in BodyUsage(nodes[i], content, decode, tc) ==>
                        x in FileUsages(nodes, content, useSourceKit, decode, tc)
    ensures useSourceKit ==>
              forall d, x :: d in Descendants(nodes[i]) && x in Contribution(d, tc) ==>
                             x in FileUsages(nodes, content, useSourceKit, decode, tc)
  {
    FileUsagesMembership(nodes, content, useSourceKit, decode, tc);
    FlatMapMembership(tc, nodes[i].inheritedTypes);
    GatheredMembership(nodes[i], tc);
  }
}
