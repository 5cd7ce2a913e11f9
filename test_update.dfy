/**
  The test-file updater: for a test file, decides whether every test class
  in it exercises an unused type (then the whole file is reported for
  deletion and its content is left alone) or, otherwise, blanks the ranges
  recorded for the test classes of unused types.
 */
module TestUpdate {
  import opened Syntax
  import opened Patcher

  /** The type a test class exercises: its name without a trailing `Tests` or, failing that, `Test`. */
  function SubjectName(name: string): (r: string)
    ensures HasSuffix(name, "Tests") ==> r + "Tests" == name
    ensures !HasSuffix(name, "Tests") && HasSuffix(name, "Test") ==> r + "Test" == name
    ensures !HasSuffix(name, "Tests") && !HasSuffix(name, "Test") ==> r == name
  {
    if HasSuffix(name, "Tests") then name[..|name| - |"Tests"|]
    else if HasSuffix(name, "Test") then name[..|name| - |"Test"|]
    else name
  }

  /** Appending either suffix to a name and deriving the subject gives the name back. */
  lemma SubjectNameRoundTrip(x: string)
    ensures SubjectName(x + "Tests") == x
    ensures SubjectName(x + "Test") == x
  {
    assert (x + "Tests")[|x + "Tests"| - 5..] == "Tests";
    assert (x + "Tests")[..|x|] == x;
    assert (x + "Test")[|x + "Test"| - 4..] == "Test";
    assert (x + "Test")[..|x|] == x;
    assert !HasSuffix(x + "Test", "Tests") by {
      assert (x + "Test")[|x + "Test"| - 1] == 't';
    }
  }

  /** No name ends in both suffixes (one ends in `s`, the other in `t`), so the order of the two tests does not matter. */
  lemma SuffixesExclusive(name: string)
    ensures !(HasSuffix(name, "Tests") && HasSuffix(name, "Test"))
  {
    assert HasSuffix(name, "Tests") ==> name[|name| - 1] == 's' by {
      if HasSuffix(name, "Tests") {
        assert name[|name| - 5..][4] == name[|name| - 1];
      }
    }
    assert HasSuffix(name, "Test") ==> name[|name| - 1] == 't' by {
      if HasSuffix(name, "Test") {
        assert name[|name| - 4..][3] == name[|name| - 1];
      }
    }
  }

  /** Only one suffix is dropped: `FooTestTests` is about `FooTest`, not `Foo`. */
  lemma SubjectNameDropsOneSuffix(name: string)
    requires HasSuffix(name, "Tests")
    ensures SubjectName(name) == name[..|name| - 5]
    ensures |SubjectName(name)| == |name| - 5
  {
  }

  /** Only files whose path ends in `Tests.swift` or `Test.swift` are examined. */
  predicate PathIsTest(path: string)
  {
    HasSuffix(path, "Tests.swift") || HasSuffix(path, "Test.swift")
  }

  /** The class node's subject is a key of the unused map. */
  predicate Targets(n: Node, unusedMap: map<string, Val>)
  {
    n.isClass && SubjectName(n.name) in unusedMap
  }

  /** `declsInFile`: the number of top-level class nodes. */
  function DeclsInFile(nodes: seq<Node>): nat
  {
    if nodes == [] then 0
    else DeclsInFile(nodes[..|nodes| - 1]) + (if nodes[|nodes| - 1].isClass then 1 else 0)
  }

  /** `deleteCount`: the number of top-level class nodes whose subject is unused. */
  function DeleteCount(nodes: seq<Node>, unusedMap: map<string, Val>): nat
  {
    if nodes == [] then 0
    else DeleteCount(nodes[..|nodes| - 1], unusedMap) + (if Targets(nodes[|nodes| - 1], unusedMap) then 1 else 0)
  }

  /** `toDelete`: per subject, the range of the last class node testing it. */
  function ToDelete(nodes: seq<Node>, unusedMap: map<string, Val>): map<string, (int, int)>
  {
    if nodes == [] then map[]
    else
      var last := nodes[|nodes| - 1];
      var m := ToDelete(nodes[..|nodes| - 1], unusedMap);
      if Targets(last, unusedMap) then m[SubjectName(last.name) := (last.offset, last.length)] else m
  }

  /** Every range of `m` that `replace` would write lies inside a buffer of size `len`. */
  predicate RangesFit(m: map<string, (int, int)>, len: nat)
  {
    forall k :: k in m ==> (Applies(m[k].0, m[k].1) ==> m[k].1 <= len)
  }

  /** Position `i` lies in a range of `m`, under one of the keys `ks`, that `replace` writes. */
  predicate CoveredBy(m: map<string, (int, int)>, ks: set<string>, i: int)
  {
    exists k :: k in ks && k in m && Applies(m[k].0, m[k].1) && m[k].0 <= i < m[k].1
  }

  /** `t` is `s` with every position covered by a range of `m` turned into a space. */
  predicate BlankedBy(s: seq<Byte>, t: seq<Byte>, m: map<string, (int, int)>, ks: set<string>)
  {
    |t| == |s| && forall i :: 0 <= i < |s| ==> t[i] == (if CoveredBy(m, ks, i) then Space else s[i])
  }

  /** Extending the scanned prefix by one node updates the counts and the range map by that node alone. */
  lemma PrefixStep(nodes: seq<Node>, n: nat, unusedMap: map<string, Val>)
    requires n < |nodes|
    ensures DeclsInFile(nodes[..n + 1]) == DeclsInFile(nodes[..n]) + (if nodes[n].isClass then 1 else 0)
    ensures DeleteCount(nodes[..n + 1], unusedMap)
            == DeleteCount(nodes[..n], unusedMap) + (if Targets(nodes[n], unusedMap) then 1 else 0)
    ensures ToDelete(nodes[..n + 1], unusedMap)
            == if Targets(nodes[n], unusedMap)
               then ToDelete(nodes[..n], unusedMap)[SubjectName(nodes[n].name) := (nodes[n].offset, nodes[n].length)]
               else ToDelete(nodes[..n], unusedMap)
  {
    assert nodes[..n + 1][..n] == nodes[..n];
  }

  /**
    `updateTest`: None for a path that is not a test file. Otherwise reports
    whether the whole file should be deleted (every class in it tests an
    unused type); in that case the content is left as it is, and otherwise
    exactly the ranges recorded in `toDelete` are blanked.
   */
  method UpdateTest(path: string, nodes: seq<Node>, unusedMap: map<string, Val>, content: array<Byte>)
    returns (r: Option<bool>)
    requires PathIsTest(path) && DeclsInFile(nodes) != DeleteCount(nodes, unusedMap)
             ==> RangesFit(ToDelete(nodes, unusedMap), content.Length)
    modifies content
    ensures r.None? <==> !PathIsTest(path)
    ensures r.Some? ==> (r.value <==> DeclsInFile(nodes) == DeleteCount(nodes, unusedMap))
    ensures r != Some(false) ==> content[..] == old(content[..])
    ensures r == Some(false) ==>
              BlankedBy(old(content[..]), content[..], ToDelete(nodes, unusedMap), ToDelete(nodes, unusedMap).Keys)
  {
    if !(HasSuffix(path, "Tests.swift") || HasSuffix(path, "Test.swift")) {
      return None;
    }
    var toDelete: map<string, (int, int)> := map[];
    var deleteCount := 0;
    var declsInFile := 0;
    for n := 0 to |nodes|
      invariant toDelete == ToDelete(nodes[..n], unusedMap)
      invariant deleteCount == DeleteCount(nodes[..n], unusedMap)
      invariant declsInFile == DeclsInFile(nodes[..n])
      invariant content[..] == old(content[..])
    {
      var current := nodes[n];
      PrefixStep(nodes, n, unusedMap);
      if current.isClass {
        var testname := current.name;
        if HasSuffix(testname, "Tests") {
          testname := testname[..|testname| - |"Tests"|];
        } else if HasSuffix(testname, "Test") {
          testname := testname[..|testname| - |"Test"|];
        }
        assert testname == SubjectName(current.name);
        declsInFile := declsInFile + 1;
        if testname in unusedMap {
          toDelete := toDelete[testname := (current.offset, current.length)];
          deleteCount := deleteCount + 1;
        }
      }
    }
    assert nodes[..|nodes|] == nodes;
    assert toDelete == ToDelete(nodes, unusedMap);
    assert declsInFile == DeclsInFile(nodes) && deleteCount == DeleteCount(nodes, unusedMap);
    var shouldDelete := declsInFile == deleteCount;
    if !shouldDelete {
      BlankAll(content, toDelete);
    }
    r := Some(shouldDelete);
  }

  /** The loop over `toDelete`: every recorded range is handed to `replace`, in an unspecified order. */
  method BlankAll(content: array<Byte>, toDelete: map<string, (int, int)>)
    requires RangesFit(toDelete, content.Length)
    modifies content
    ensures BlankedBy(old(content[..]), content[..], toDelete, toDelete.Keys)
  {
    var remaining := toDelete.Keys;
    while remaining != {}
      invariant remaining <= toDelete.Keys
      invariant BlankedBy(old(content[..]), content[..], toDelete, toDelete.Keys - remaining)
      decreases |remaining|
    {
      var k :| k in remaining;
      var v := toDelete[k];
      ghost var before := content[..];
      Replace(content, v.0, v.1, Space);
      ReplacedBytes(before, v.0, v.1, Space);
      ghost var done := toDelete.Keys - remaining;
      remaining := remaining - {k};
      assert toDelete.Keys - remaining == done + {k};
      forall i | 0 <= i < content.Length
        ensures content[i] == (if CoveredBy(toDelete, done + {k}, i) then Space else old(content[..])[i])
      {
        if Applies(v.0, v.1) && v.0 <= i < v.1 {
          assert CoveredBy(toDelete, done + {k}, i);
        } else if CoveredBy(toDelete, done + {k}, i) {
          var k' :| k' in done + {k} && k' in toDelete && Applies(toDelete[k'].0, toDelete[k'].1)
                    && toDelete[k'].0 <= i < toDelete[k'].1;
          assert k' != k;
          assert CoveredBy(toDelete, done, i);
        } else {
          assert !CoveredBy(toDelete, done, i);
        }
      }
    }
  }

  /** At most every class node tests an unused type. */
  lemma {:induction false} DeleteCountBound(nodes: seq<Node>, unusedMap: map<string, Val>)
    ensures DeleteCount(nodes, unusedMap) <= DeclsInFile(nodes)
  {
    if nodes != [] {
      DeleteCountBound(nodes[..|nodes| - 1], unusedMap);
    }
  }

  /**
    The deletion policy: the counts agree exactly when every class node of
    the file tests an unused type (so a file with no class at all is
    reported for deletion).
   */
  lemma {:induction false} ShouldDeleteIff(nodes: seq<Node>, unusedMap: map<string, Val>)
    ensures DeclsInFile(nodes) == DeleteCount(nodes, unusedMap)
            <==> forall i :: 0 <= i < |nodes| && nodes[i].isClass ==> Targets(nodes[i], unusedMap)
  {
    if nodes != [] {
      var init := nodes[..|nodes| - 1];
      var last := nodes[|nodes| - 1];
      ShouldDeleteIff(init, unusedMap);
      DeleteCountBound(init, unusedMap);
      assert forall i :: 0 <= i < |init| ==> init[i] == nodes[i];
      if DeclsInFile(nodes) == DeleteCount(nodes, unusedMap) {
        assert DeclsInFile(init) == DeleteCount(init, unusedMap);
      }
    }
  }

  /** A file without test classes is always reported for deletion. */
  lemma NoClassesMeansDelete(nodes: seq<Node>, unusedMap: map<string, Val>)
    requires forall i :: 0 <= i < |nodes| ==> !nodes[i].isClass
    ensures DeclsInFile(nodes) == DeleteCount(nodes, unusedMap)
  {
    ShouldDeleteIff(nodes, unusedMap);
  }

  /** The subjects with a recorded range are exactly the unused subjects of the file's class nodes. */
  lemma {:induction false} ToDeleteKeys(nodes: seq<Node>, unusedMap: map<string, Val>)
    ensures forall k :: k in ToDelete(nodes, unusedMap) <==>
                        exists i :: 0 <= i < |nodes| && Targets(nodes[i], unusedMap) && SubjectName(nodes[i].name) == k
  {
    if nodes != [] {
      var init := nodes[..|nodes| - 1];
      ToDeleteKeys(init, unusedMap);
      assert forall i :: 0 <= i < |init| ==> init[i] == nodes[i];
      forall k | exists i :: 0 <= i < |nodes| && Targets(nodes[i], unusedMap) && SubjectName(nodes[i].name) == k
        ensures k in ToDelete(nodes, unusedMap)
      {
        var i :| 0 <= i < |nodes| && Targets(nodes[i], unusedMap) && SubjectName(nodes[i].name) == k;
        if i < |init| {
          assert Targets(init[i], unusedMap) && SubjectName(init[i].name) == k;
        }
      }
    }
  }

  /**
    When several class nodes test the same type, the range of the last one
    is the one kept (the earlier ranges are forgotten although they were
    counted).
   */
  lemma {:induction false} ToDeleteLastWins(nodes: seq<Node>, unusedMap: map<string, Val>, i: nat)
    requires i < |nodes| && Targets(nodes[i], unusedMap)
    requires forall j :: i < j < |nodes| && Targets(nodes[j], unusedMap) ==> SubjectName(nodes[j].name) != SubjectName(nodes[i].name)
    ensures SubjectName(nodes[i].name) in ToDelete(nodes, unusedMap)
    ensures ToDelete(nodes, unusedMap)[SubjectName(nodes[i].name)] == (nodes[i].offset, nodes[i].length)
  {
    var init := nodes[..|nodes| - 1];
    if i < |init| {
      assert forall j :: i < j < |init| ==> init[j] == nodes[j];
      ToDeleteLastWins(init, unusedMap, i);
    }
  }

  /** Ranges are kept per subject, so there are never more of them than counted deletions. */
  lemma {:induction false} ToDeleteSize(nodes: seq<Node>, unusedMap: map<string, Val>)
    ensures |ToDelete(nodes, unusedMap).Keys| <= DeleteCount(nodes, unusedMap)
  {
    if nodes != [] {
      var init := nodes[..|nodes| - 1];
      var last := nodes[|nodes| - 1];
      ToDeleteSize(init, unusedMap);
      var m := ToDelete(init, unusedMap);
      if Targets(last, unusedMap) {
        var k := SubjectName(last.name);
        assert m[k := (last.offset, last.length)].Keys == m.Keys + {k};
      }
    }
  }

  /**
    Two test classes of one type, such as `FooTests` and `FooTest`: `deleteCount`
    counts 2, while `toDelete` keeps 1 range, the second class's.
   */
  lemma SharedSubjectKeepsOneRange(a: Node, b: Node, unusedMap: map<string, Val>)
    requires Targets(a, unusedMap) && Targets(b, unusedMap) && SubjectName(a.name) == SubjectName(b.name)
    ensures DeleteCount([a, b], unusedMap) == 2
    ensures |ToDelete([a, b], unusedMap).Keys| == 1
    ensures ToDelete([a, b], unusedMap)[SubjectName(a.name)] == (b.offset, b.length)
  {
    assert [a, b][..1] == [a];
    assert [a][..0] == [];
    var k := SubjectName(a.name);
    assert DeleteCount([a], unusedMap) == 1;
    assert ToDelete([a], unusedMap) == map[k := (a.offset, a.length)];
    assert ToDelete([a, b], unusedMap) == map[k := (b.offset, b.length)];
    assert ToDelete([a, b], unusedMap).Keys == {k};
  }
}
