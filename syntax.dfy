/**
  The data the dead-code remover works on: the node tree produced by the
  external syntax-analysis service, the declaration record kept for every
  candidate type, bytes of file content, and the few string operations
  (prefix, suffix, substring, flat-map) the scanners use.
 */
module Syntax {

  datatype Option<+T> = None | Some(value: T)

  /** One byte of a file's content. */
  type Byte = bv8

  const Space: Byte := 32
  const Newline: Byte := 10

  /** Sentinel the syntax service uses for a type annotation it could not resolve. */
  const UnknownVal: string := "Unknown"

  /**
    Declaration kinds the scanners distinguish, one per SourceKit kind
    identifier they compare against; every other identifier is kept verbatim.
   */
  datatype Kind =
    | GenericTypeParam     // source.lang.swift.decl.generic_type_param
    | ParameterVar         // source.lang.swift.decl.var.parameter
    | CallExpr             // source.lang.swift.expr.call
    | LocalVar             // source.lang.swift.decl.var.local
    | GlobalVar            // source.lang.swift.decl.var.global
    | FreeFunction         // source.lang.swift.decl.function.free
    | ClassMethod          // source.lang.swift.decl.function.method.class
    | OtherKind(raw: string)

  /** The SourceKit identifier of a kind. */
  function KindName(k: Kind): string
  {
    match k
    case GenericTypeParam => "source.lang.swift.decl.generic_type_param"
    case ParameterVar => "source.lang.swift.decl.var.parameter"
    case CallExpr => "source.lang.swift.expr.call"
    case LocalVar => "source.lang.swift.decl.var.local"
    case GlobalVar => "source.lang.swift.decl.var.global"
    case FreeFunction => "source.lang.swift.decl.function.free"
    case ClassMethod => "source.lang.swift.decl.function.method.class"
    case OtherKind(raw) => raw
  }

  /** The identifiers that have a variant of their own. */
  predicate IsKnownKindName(raw: string)
  {
    || raw == "source.lang.swift.decl.generic_type_param"
    || raw == "source.lang.swift.decl.var.parameter"
    || raw == "source.lang.swift.expr.call"
    || raw == "source.lang.swift.decl.var.local"
    || raw == "source.lang.swift.decl.var.global"
    || raw == "source.lang.swift.decl.function.free"
    || raw == "source.lang.swift.decl.function.method.class"
  }

  /**
    A kind as the syntax service reports it: `OtherKind` never carries an
    identifier that has its own variant, so comparing variants is comparing
    identifiers.
   */
  predicate WellFormedKind(k: Kind)
  {
    k.OtherKind? ==> !IsKnownKindName(k.raw)
  }

  /** Reads a kind identifier; every node kind is taken to come from here. */
  function ParseKind(raw: string): (k: Kind)
    ensures WellFormedKind(k)
    ensures KindName(k) == raw
  {
    if raw == "source.lang.swift.decl.generic_type_param" then GenericTypeParam
    else if raw == "source.lang.swift.decl.var.parameter" then ParameterVar
    else if raw == "source.lang.swift.expr.call" then CallExpr
    else if raw == "source.lang.swift.decl.var.local" then LocalVar
    else if raw == "source.lang.swift.decl.var.global" then GlobalVar
    else if raw == "source.lang.swift.decl.function.free" then FreeFunction
    else if raw == "source.lang.swift.decl.function.method.class" then ClassMethod
    else OtherKind(raw)
  }

  /**
    For well-formed kinds, comparing variants agrees with comparing the
    identifiers the source compares: reading a kind's name gives it back.
   */
  lemma ParseKindName(k: Kind)
    requires WellFormedKind(k)
    ensures ParseKind(KindName(k)) == k
  {
  }

  /** For a well-formed kind, each variant test is the source's comparison of the identifier. */
  lemma KindTestsMatchNames(k: Kind)
    requires WellFormedKind(k)
    ensures k.GenericTypeParam? <==> KindName(k) == "source.lang.swift.decl.generic_type_param"
    ensures k.ParameterVar? <==> KindName(k) == "source.lang.swift.decl.var.parameter"
    ensures k.CallExpr? <==> KindName(k) == "source.lang.swift.expr.call"
    ensures k.LocalVar? <==> KindName(k) == "source.lang.swift.decl.var.local"
    ensures k.GlobalVar? <==> KindName(k) == "source.lang.swift.decl.var.global"
    ensures k.FreeFunction? <==> KindName(k) == "source.lang.swift.decl.function.free"
    ensures k.ClassMethod? <==> KindName(k) == "source.lang.swift.decl.function.method.class"
  {
    ParseKindName(k);
  }

  /**
    A node of the structure tree. `offset`/`length` is the byte range of the
    whole declaration, `nameOffset`/`nameLength` the byte range of its name;
    `attributes` is absent when the service reports no attribute list.
   */
  datatype Node = Node(
    kind: Kind,
    name: string,
    typeName: string,
    isClass: bool,
    isExtension: bool,
    isVariable: bool,
    isMethod: bool,
    attributes: Option<seq<string>>,
    inheritedTypes: seq<string>,
    offset: int,
    length: int,
    nameOffset: int,
    nameLength: int,
    substructures: seq<Node>)

  /** Declaration record: where a candidate type lives and what it inherits from. */
  datatype Val = Val(path: string, parents: seq<string>, offset: int, length: int, used: bool)

  predicate HasPrefix(s: string, p: string)
  {
    |p| <= |s| && s[..|p|] == p
  }

  predicate HasSuffix(s: string, p: string)
  {
    |p| <= |s| && s[|s| - |p|..] == p
  }

  /** `p` occurs in `s` starting at index `i`. */
  predicate OccursAt(s: string, p: string, i: nat)
  {
    i + |p| <= |s| && s[i..i + |p|] == p
  }

  /** `s.contains(p)`: `p` occurs somewhere in `s` as a contiguous run. */
  predicate Contains(s: string, p: string)
    decreases |s|
  {
    HasPrefix(s, p) || (s != [] && Contains(s[1..], p))
  }

  /** The recursive search finds an occurrence exactly when there is one. */
  lemma {:induction false} ContainsIff(s: string, p: string)
    ensures Contains(s, p) <==> exists i: nat :: OccursAt(s, p, i)
    decreases |s|
  {
    assert HasPrefix(s, p) <==> OccursAt(s, p, 0);
    if s != [] {
      ContainsIff(s[1..], p);
      assert forall i: nat :: OccursAt(s[1..], p, i) <==> OccursAt(s, p, i + 1);
      assert forall i: nat :: OccursAt(s, p, i) ==> i == 0 || OccursAt(s[1..], p, i - 1);
    } else {
      assert forall i: nat :: OccursAt(s, p, i) ==> i == 0;
    }
  }

  /** A type-name expression with nothing to contribute: unresolved, empty or `Void`. */
  predicate IsVoidLike(t: string)
  {
    t == UnknownVal || t == "" || t == "Void"
  }

  /** `xs.map(f).flatMap { $0 }`: the results of `f`, concatenated in order. */
  function FlatMap<T, U>(f: T -> seq<U>, xs: seq<T>): seq<U>
  {
    if xs == [] then [] else FlatMap(f, xs[..|xs| - 1]) + f(xs[|xs| - 1])
  }

  /** A value is in the flat-map exactly when it is produced for some element. */
  lemma {:induction false} FlatMapMembership<T(!new), U(!new)>(f: T -> seq<U>, xs: seq<T>)
    ensures forall y :: y in FlatMap(f, xs) <==> exists x :: x in xs && y in f(x)
  {
    if xs != [] {
      var last := xs[|xs| - 1];
      FlatMapMembership(f, xs[..|xs| - 1]);
      assert forall x :: x in xs <==> x in xs[..|xs| - 1] || x == last;
    }
  }

  /** Concatenation is associative; called where a proof regroups an accumulated list. */
  lemma Assoc<T>(a: seq<T>, b: seq<T>, c: seq<T>)
    ensures (a + b) + c == a + (b + c)
  {
  }

  lemma {:induction false} FlatMapAppend<T, U>(f: T -> seq<U>, a: seq<T>, b: seq<T>)
    ensures FlatMap(f, a + b) == FlatMap(f, a) + FlatMap(f, b)
    decreases |b|
  {
    if b == [] {
      assert a + b == a;
    } else {
      var b' := b[..|b| - 1];
      assert (a + b)[..|a + b| - 1] == a + b';
      FlatMapAppend(f, a, b');
    }
  }
}
