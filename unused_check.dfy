/**
  The unused-candidate filter: for one file, the names of its top-level
  classes that appear in a given list of unused names.
 */
module UnusedCheck {
  import opened Syntax

  /** The names of the class nodes among `nodes` that are in `unusedList`, in node order, repeats kept. */
  function UnusedClasses(nodes: seq<Node>, unusedList: seq<string>): seq<string>
  {
    if nodes == [] then []
    else
      var last := nodes[|nodes| - 1];
      UnusedClasses(nodes[..|nodes| - 1], unusedList)
      + (if last.isClass && last.name in unusedList then [last.name] else [])
  }

  /**
    `checkUnused` for one file: None when the path filter rejects it,
    otherwise the class names of the file that are listed as unused.
   */
  method CheckUnused(path: string, shouldParse: string -> bool, nodes: seq<Node>, unusedList: seq<string>)
    returns (r: Option<seq<string>>)
    ensures r.None? <==> !shouldParse(path)
    ensures r.Some? ==> r.value == UnusedClasses(nodes, unusedList)
  {
    if !shouldParse(path) {
      return None;
    }
    var toRemove: seq<string> := [];
    for n := 0 to |nodes|
      invariant toRemove == UnusedClasses(nodes[..n], unusedList)
    {
      var current := nodes[n];
      assert nodes[..n + 1][..n] == nodes[..n];
      if current.isClass {
        if current.name in unusedList {
          toRemove := toRemove + [current.name];
        }
      }
    }
    assert nodes[..|nodes|] == nodes;
    r := Some(toRemove);
  }

  /** A name is reported exactly when it is listed as unused and some top-level class carries it. */
  lemma {:induction false} UnusedClassesMembership(nodes: seq<Node>, unusedList: seq<string>)
    ensures forall x :: x in UnusedClasses(nodes, unusedList) <==>
                        x in unusedList && exists i :: 0 <= i < |nodes| && nodes[i].isClass && nodes[i].name == x
  {
    if nodes != [] {
      var init := nodes[..|nodes| - 1];
      UnusedClassesMembership(init, unusedList);
      forall x | x in unusedList && exists i :: 0 <= i < |nodes| && nodes[i].isClass && nodes[i].name == x
        ensures x in UnusedClasses(nodes, unusedList)
      {
        var i :| 0 <= i < |nodes| && nodes[i].isClass && nodes[i].name == x;
        if i < |init| {
          assert init[i] == nodes[i];
        }
      }
      forall x | x in UnusedClasses(init, unusedList)
        ensures exists i :: 0 <= i < |nodes| && nodes[i].isClass && nodes[i].name == x
      {
        var i :| 0 <= i < |init| && init[i].isClass && init[i].name == x;
        assert nodes[i] == init[i];
      }
    }
  }

  /** One entry per class node whose name is listed: never more entries than top-level nodes. */
  lemma {:induction false} UnusedClassesLength(nodes: seq<Node>, unusedList: seq<string>)
    ensures |UnusedClasses(nodes, unusedList)| <= |nodes|
    ensures (forall i :: 0 <= i < |nodes| ==> nodes[i].isClass && nodes[i].name in unusedList)
            ==> UnusedClasses(nodes, unusedList) == seq(|nodes|, i requires 0 <= i < |nodes| => nodes[i].name)
  {
    if nodes != [] {
      var init := nodes[..|nodes| - 1];
      UnusedClassesLength(init, unusedList);
    }
  }

  /**
    Only which names the list holds matters: two lists that agree on the
    names of the file's classes select the same names.
   */
  lemma {:induction false} UnusedClassesCongruence(nodes: seq<Node>, u: seq<string>, v: seq<string>)
    requires forall i :: 0 <= i < |nodes| && nodes[i].isClass ==> (nodes[i].name in u <==> nodes[i].name in v)
    ensures UnusedClasses(nodes, u) == UnusedClasses(nodes, v)
  {
    if nodes != [] {
      var init := nodes[..|nodes| - 1];
      assert forall i :: 0 <= i < |init| ==> init[i] == nodes[i];
      UnusedClassesCongruence(init, u, v);
    }
  }

  /** Filtering again by the reported names changes nothing. */
  lemma UnusedClassesIdempotent(nodes: seq<Node>, unusedList: seq<string>)
    ensures UnusedClasses(nodes, UnusedClasses(nodes, unusedList)) == UnusedClasses(nodes, unusedList)
  {
    var reported := UnusedClasses(nodes, unusedList);
    UnusedClassesMembership(nodes, unusedList);
    forall i | 0 <= i < |nodes| && nodes[i].isClass
      ensures nodes[i].name in reported <==> nodes[i].name in unusedList
    {
    }
    UnusedClassesCongruence(nodes, reported, unusedList);
  }
}
