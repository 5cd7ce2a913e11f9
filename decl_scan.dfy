/**
  The declaration scanner: the per-file worker that records every top-level
  class of a file that is a candidate for removal, keyed by its name.
 */
module DeclScan {
  import opened Syntax

  /** Some attribute of the node mentions `objc`. */
  predicate HasObjcAttribute(attrs: Option<seq<string>>)
  {
    attrs.Some? && exists a :: a in attrs.value && Contains(a, "objc")
  }

  /**
    The exclusion predicate: a top-level class is a candidate unless its name
    is private-prefixed, interop-suffixed or a template placeholder, or one of
    its attributes marks it as bridged to Objective-C.
   */
  predicate Eligible(n: Node)
  {
    && n.isClass
    && !HasPrefix(n.name, "_")
    && !HasSuffix(n.name, "Objc")
    && !Contains(n.name, "__VARIABLE_")
    && !HasObjcAttribute(n.attributes)
  }

  /** `n` puts the key `k` into the result map. */
  predicate Declares(n: Node, k: string)
  {
    Eligible(n) && n.name == k
  }

  /** No node after position `i` (below `upTo`) declares the same name: the record of node `i` survives. */
  predicate LastDeclarationBefore(nodes: seq<Node>, i: nat, upTo: nat)
    requires i < upTo <= |nodes|
  {
    forall j :: i < j < upTo ==> !Declares(nodes[j], nodes[i].name)
  }

  function RecordOf(path: string, n: Node): Val
  {
    Val(path, n.inheritedTypes, n.offset, n.length, false)
  }

  /** The map the scan builds over `nodes`, one node at a time: an eligible class (re)binds its name. */
  function Declarations(path: string, nodes: seq<Node>): map<string, Val>
  {
    if nodes == [] then map[]
    else
      var last := nodes[|nodes| - 1];
      var m := Declarations(path, nodes[..|nodes| - 1]);
      if Eligible(last) then m[last.name := RecordOf(path, last)] else m
  }

  /** A name is a key exactly when some node declares it. */
  lemma {:induction false} DeclarationsKeys(path: string, nodes: seq<Node>)
    ensures forall k :: k in Declarations(path, nodes) <==> exists i :: 0 <= i < |nodes| && Declares(nodes[i], k)
  {
    if nodes != [] {
      var init := nodes[..|nodes| - 1];
      DeclarationsKeys(path, init);
      assert forall i :: 0 <= i < |init| ==> init[i] == nodes[i];
      forall k | exists i :: 0 <= i < |nodes| && Declares(nodes[i], k)
        ensures k in Declarations(path, nodes)
      {
        var i :| 0 <= i < |nodes| && Declares(nodes[i], k);
        if i < |init| {
          assert Declares(init[i], k);
        }
      }
    }
  }

  /** Every record belongs to this file and is not yet marked used. */
  lemma {:induction false} DeclarationsRecords(path: string, nodes: seq<Node>)
    ensures forall k :: k in Declarations(path, nodes) ==>
                          Declarations(path, nodes)[k].path == path && !Declarations(path, nodes)[k].used
  {
    if nodes != [] {
      DeclarationsRecords(path, nodes[..|nodes| - 1]);
    }
  }

  /** A name's record is that of the last node declaring it. */
  lemma {:induction false} DeclarationsLastWins(path: string, nodes: seq<Node>, i: nat)
    requires i < |nodes| && Eligible(nodes[i]) && LastDeclarationBefore(nodes, i, |nodes|)
    ensures nodes[i].name in Declarations(path, nodes)
    ensures Declarations(path, nodes)[nodes[i].name] == RecordOf(path, nodes[i])
  {
    var init := nodes[..|nodes| - 1];
    if i < |init| {
      assert !Declares(nodes[|nodes| - 1], nodes[i].name);
      assert init[i] == nodes[i];
      assert forall j :: i < j < |init| ==> init[j] == nodes[j];
      DeclarationsLastWins(path, init, i);
    }
  }

  /**
    Scans the top-level nodes of the file at `path`. Returns None when the
    path filter rejects the file (the completion is never called); otherwise
    the map holds exactly the names of eligible classes, each with the record
    of the LAST node that declared it.
   */
  method ScanDecls(path: string, shouldParse: string -> bool, nodes: seq<Node>)
    returns (r: Option<map<string, Val>>)
    ensures r.None? <==> !shouldParse(path)
    ensures r.Some? ==> r.value == Declarations(path, nodes)
    ensures r.Some? ==> forall k :: k in r.value <==> exists i :: 0 <= i < |nodes| && Declares(nodes[i], k)
    ensures r.Some? ==> forall i :: 0 <= i < |nodes| && Eligible(nodes[i]) ==> nodes[i].name in r.value
    ensures r.Some? ==> forall i :: 0 <= i < |nodes| && Eligible(nodes[i]) && LastDeclarationBefore(nodes, i, |nodes|)
                                    ==> r.value[nodes[i].name] == RecordOf(path, nodes[i])
    ensures r.Some? ==> forall k :: k in r.value ==>
                          && !HasPrefix(k, "_") && !HasSuffix(k, "Objc") && !Contains(k, "__VARIABLE_")
                          && r.value[k].path == path && !r.value[k].used
  {
    if !shouldParse(path) {
      return None;
    }
    var results: map<string, Val> := map[];
    for n := 0 to |nodes|
      invariant results == Declarations(path, nodes[..n])
    {
      var current := nodes[n];
      assert nodes[..n + 1][..n] == nodes[..n];
      if current.isClass && !HasPrefix(current.name, "_") && !HasSuffix(current.name, "Objc")
         && !Contains(current.name, "__VARIABLE_")
      {
        var hasObjc := current.attributes.Some? && exists a :: a in current.attributes.value && Contains(a, "objc");
        if !hasObjc {
          results := results[current.name := RecordOf(path, current)];
        }
      }
    }
    assert nodes[..|nodes|] == nodes;
    DeclarationsKeys(path, nodes);
    DeclarationsRecords(path, nodes);
    forall i | 0 <= i < |nodes| && Eligible(nodes[i]) && LastDeclarationBefore(nodes, i, |nodes|)
      ensures results[nodes[i].name] == RecordOf(path, nodes[i])
    {
      DeclarationsLastWins(path, nodes, i);
    }
    r := Some(results);
  }
}
