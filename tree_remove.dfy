/**
 * What RemoveFromTree (MainWindow.xaml.cs) does to the tree: it descends as
 * far as the trimmed segments can be followed, deletes the deepest node it
 * reached together with its subtree, and on the way back up deletes every
 * ancestor it left without children, stopping below the root.
 */
module RemoveProofs {
  import opened Options
  import opened Text
  import opened Tree
  import opened InsertProofs

  /** Following a path after member k is deleted from a collection of distinct names. */
  lemma {:induction false} NodeAtDeleted(level: Siblings, k: nat, ns: seq<string>)
    requires level.Collection? && k < |level.members| && Distinct(level.members)
    requires ns != []
    ensures var r := Collection(level.members[..k] + level.members[k + 1..]);
            && (ns[0] == level.members[k].name ==> NodeAt(r, ns).None?)
            && (ns[0] != level.members[k].name ==> NodeAt(r, ns) == NodeAt(level, ns))
  {
    var s := level.members;
    var r := Collection(s[..k] + s[k + 1..]);
    assert forall j :: 0 <= j < k ==> r.members[j] == s[j];
    assert forall j :: k <= j < |r.members| ==> r.members[j] == s[j + 1];
    if ns[0] != s[k].name {
      match Find(level, ns[0])
      case None =>
      case Some(j) =>
        if j < k {
          assert r.members[j] == s[j];
        } else {
          assert r.members[j - 1] == s[j];
        }
    }
  }

  /**
   * MatchDepth is how far ns can be followed: the path of that length leads
   * to a node, and one name more leads nowhere.
   */
  lemma {:induction false} MatchDepthMeaning(level: Siblings, ns: seq<string>)
    ensures var d := MatchDepth(level, ns);
            && (0 < d ==> Has(level, ns[..d]))
            && (d < |ns| ==> !Has(level, ns[..d + 1]))
    decreases |ns|
  {
    if ns != [] && Find(level, ns[0]).Some? {
      var child := level.members[Find(level, ns[0]).value].children;
      var below := MatchDepth(child, ns[1..]);
      MatchDepthMeaning(child, ns[1..]);
      assert ns[..below + 1][1..] == ns[1..][..below];
      if below < |ns| - 1 {
        assert ns[..below + 2][1..] == ns[1..][..below + 1];
      }
    }
  }

  /**
   * CutDepth walks up exactly over the ancestors left with one child: every
   * node from the cut down to ns[..d - 1] has one child, and the parent of
   * the cut (if it is not the root) has some other number of children.
   */
  lemma {:induction false} CutDepthMeaning(level: Siblings, ns: seq<string>, d: nat)
    requires 1 <= d <= |ns|
    ensures var c := CutDepth(level, ns, d);
            && (forall j :: c <= j < d ==> ChildCount(level, ns[..j]) == 1)
            && (c == 1 || ChildCount(level, ns[..c - 1]) != 1)
    decreases d
  {
    if d > 1 && ChildCount(level, ns[..d - 1]) == 1 {
      CutDepthMeaning(level, ns, d - 1);
    }
  }

  /** A cut T[..c] lies on the path ns exactly when its tail lies on the tail of ns. */
  lemma {:induction false} PrefixStep(T: seq<string>, ns: seq<string>, c: nat)
    requires ns != [] && 1 <= c <= |T|
    ensures ns[0] != T[0] ==> !(T[..c] <= ns)
    ensures ns[0] == T[0] ==> (T[..c] <= ns <==> T[1..][..c - 1] <= ns[1..])
  {
    if ns[0] == T[0] && T[1..][..c - 1] <= ns[1..] {
      assert T[..c] == [T[0]] + T[1..][..c - 1];
      assert ns == [ns[0]] + ns[1..];
    }
  }

  /** The count of children along T, seen from level or from the child T[0] leads to. */
  lemma {:induction false} ChildCountStep(level: Siblings, T: seq<string>, j: nat)
    requires T != [] && Find(level, T[0]).Some?
    requires 1 <= j <= |T|
    ensures ChildCount(level, T[..j]) == ChildCount(level.members[Find(level, T[0]).value].children, T[1..][..j - 1])
  {
    if j > 1 {
      assert T[..j][1..] == T[1..][..j - 1];
    }
  }

  /**
   * The cut seen from level is one deeper than the cut seen from the child
   * T[0] leads to, unless that child itself goes (its cut is the child and
   * it is its collection's only member), in which case the cut is T[0].
   */
  lemma {:induction false} CutDepthStep(level: Siblings, T: seq<string>, d: nat)
    requires T != [] && Find(level, T[0]).Some?
    requires 2 <= d <= |T|
    ensures var C := level.members[Find(level, T[0]).value].children;
            var c' := CutDepth(C, T[1..], d - 1);
            CutDepth(level, T, d) == if c' == 1 && |Elems(C)| == 1 then 1 else c' + 1
    decreases d
  {
    var C := level.members[Find(level, T[0]).value].children;
    ChildCountStep(level, T, d - 1);
    if d == 2 {
      ChildCountStep(level, T, 1);
    } else {
      CutDepthStep(level, T, d - 1);
    }
  }

  /** MatchDepth one level down. */
  lemma {:induction false} MatchDepthStep(level: Siblings, segs: seq<string>)
    requires segs != [] && Find(level, Trim(segs[0])).Some?
    ensures Trims(segs)[0] == Trim(segs[0]) && Trims(segs)[1..] == Trims(segs[1..])
    ensures MatchDepth(level, Trims(segs))
            == 1 + MatchDepth(level.members[Find(level, Trim(segs[0])).value].children, Trims(segs[1..]))
  {
    TrimsTail(segs);
  }

  /**
   * When RemoveFromTree asks its caller to delete the owner of a collection:
   * when nothing on the path matched (then nothing changed), or when the cut
   * reaches this collection's member and that member was its only one.
   * A non-null collection is never replaced by a null one.
   */
  lemma {:induction false} RemoveBelowOwner(level: Siblings, segs: seq<string>)
    ensures var T := Trims(segs);
            var d := MatchDepth(level, T);
            var r := RemoveBelow(level, segs);
            && (d == 0 ==> r == Removal(level, true))
            && (d > 0 ==> (r.removeOwner <==> CutDepth(level, T, d) == 1 && |Elems(level)| == 1))
            && (r.rest.Null? ==> level.Null?)
    decreases |segs|
  {
    if segs != [] && Find(level, Trim(segs[0])).Some? {
      var n := level.members[Find(level, Trim(segs[0])).value];
      RemoveBelowOwner(n.children, segs[1..]);
      if RemoveBelow(n.children, segs[1..]).removeOwner {
        OwnerDeleted(level, segs);
      } else {
        OwnerKept(level, segs);
      }
    }
  }

  /** What RemoveBelowOwner states, for one collection and segment sequence. */
  predicate OwnerFacts(level: Siblings, segs: seq<string>) {
    var T := Trims(segs);
    var d := MatchDepth(level, T);
    var r := RemoveBelow(level, segs);
    && (d == 0 ==> r == Removal(level, true))
    && (d > 0 ==> (r.removeOwner <==> CutDepth(level, T, d) == 1 && |Elems(level)| == 1))
    && (r.rest.Null? ==> level.Null?)
  }

  /** The step of RemoveBelowOwner where the member the first segment names is deleted. */
  lemma {:induction false} OwnerDeleted(level: Siblings, segs: seq<string>)
    requires segs != [] && Find(level, Trim(segs[0])).Some?
    requires OwnerFacts(level.members[Find(level, Trim(segs[0])).value].children, segs[1..])
    requires RemoveBelow(level.members[Find(level, Trim(segs[0])).value].children, segs[1..]).removeOwner
    ensures OwnerFacts(level, segs)
  {
    var T := Trims(segs);
    MatchDepthStep(level, segs);
    var k := Find(level, Trim(segs[0])).value;
    var s' := level.members[..k] + level.members[k + 1..];
    assert RemoveBelow(level, segs) == Removal(Collection(s'), s' == []);
    assert |s'| == |level.members| - 1;
    var d := MatchDepth(level, T);
    if d > 1 {
      CutDepthStep(level, T, d);
    }
    assert CutDepth(level, T, d) == 1;
  }

  /** The step of RemoveBelowOwner where the member the first segment names stays. */
  lemma {:induction false} OwnerKept(level: Siblings, segs: seq<string>)
    requires segs != [] && Find(level, Trim(segs[0])).Some?
    requires OwnerFacts(level.members[Find(level, Trim(segs[0])).value].children, segs[1..])
    requires !RemoveBelow(level.members[Find(level, Trim(segs[0])).value].children, segs[1..]).removeOwner
    ensures OwnerFacts(level, segs)
  {
    var T := Trims(segs);
    MatchDepthStep(level, segs);
    var k := Find(level, Trim(segs[0])).value;
    var n := level.members[k];
    var below := RemoveBelow(n.children, segs[1..]);
    assert RemoveBelow(level, segs) == Removal(Collection(level.members[k := n.(children := below.rest)]), false);
    var d' := MatchDepth(n.children, T[1..]);
    assert d' > 0 && !(CutDepth(n.children, T[1..], d') == 1 && |Elems(n.children)| == 1);
    var d := MatchDepth(level, T);
    assert d == d' + 1;
    CutDepthStep(level, T, d);
  }

  /**
   * What a removal leaves of the path ns: when the first d >= 1 trimmed
   * segments can be followed, ns is gone exactly when it runs through the
   * node at the cut; a path that is still there was there before and its
   * node keeps its own data.
   */
  predicate PathsAfterRemove(level: Siblings, segs: seq<string>, ns: seq<string>) {
    CutPaths(level, segs, ns) && KeptData(level, segs, ns)
  }

  /** The first half of PathsAfterRemove: which paths a removal that matched something deletes. */
  predicate CutPaths(level: Siblings, segs: seq<string>, ns: seq<string>) {
    var T := Trims(segs);
    var d := MatchDepth(level, T);
    d > 0 ==> (Has(RemoveBelow(level, segs).rest, ns) <==> Has(level, ns) && !(T[..CutDepth(level, T, d)] <= ns))
  }

  /** The second half of PathsAfterRemove: a path left after a removal was there before, with the same node data. */
  predicate KeptData(level: Siblings, segs: seq<string>, ns: seq<string>) {
    var r := RemoveBelow(level, segs).rest;
    Has(r, ns) ==> Has(level, ns) && Shallow(NodeAt(r, ns).value) == Shallow(NodeAt(level, ns).value)
  }

  /**
   * RemoveFromTree, stated over paths: when the first d >= 1 trimmed segments
   * can be followed, the node at the cut (the deepest matched node, or its
   * highest ancestor that only had it below) disappears with its whole
   * subtree, and every other path stays, its node keeping its own data.
   */
  lemma {:induction false} RemovePaths(level: Siblings, segs: seq<string>, ns: seq<string>)
    requires WellFormed(level)
    requires ns != []
    ensures var T := Trims(segs);
            var d := MatchDepth(level, T);
            var r := RemoveBelow(level, segs).rest;
            && (d > 0 ==> (Has(r, ns) <==> Has(level, ns) && !(T[..CutDepth(level, T, d)] <= ns)))
            && (Has(r, ns) ==> Has(level, ns) && Shallow(NodeAt(r, ns).value) == Shallow(NodeAt(level, ns).value))
    decreases |segs|, 1
  {
    RemoveBelowOwner(level, segs);
    if segs == [] || Find(level, Trim(segs[0])).None? {
      return;
    }
    var k := Find(level, Trim(segs[0])).value;
    if RemoveBelow(level.members[k].children, segs[1..]).removeOwner {
      RemovePathsDeleting(level, segs, ns);
    } else {
      RemovePathsDescending(level, segs, ns);
    }
  }

  /** RemovePaths where the member the first segment names is deleted from level. */
  lemma {:induction false} RemovePathsDeleting(level: Siblings, segs: seq<string>, ns: seq<string>)
    requires WellFormed(level)
    requires ns != [] && segs != [] && Find(level, Trim(segs[0])).Some?
    requires RemoveBelow(level.members[Find(level, Trim(segs[0])).value].children, segs[1..]).removeOwner
    ensures var T := Trims(segs);
            var d := MatchDepth(level, T);
            var r := RemoveBelow(level, segs).rest;
            && d > 0 && CutDepth(level, T, d) == 1
            && (Has(r, ns) <==> Has(level, ns) && !(T[..1] <= ns))
            && (Has(r, ns) ==> Shallow(NodeAt(r, ns).value) == Shallow(NodeAt(level, ns).value))
  {
    var T := Trims(segs);
    MatchDepthStep(level, segs);
    var d := MatchDepth(level, T);
    var k := Find(level, Trim(segs[0])).value;
    var C := level.members[k].children;
    RemoveBelowOwner(C, segs[1..]);
    if d > 1 {
      CutDepthStep(level, T, d);
    }
    assert RemoveBelow(level, segs).rest == Collection(level.members[..k] + level.members[k + 1..]);
    NodeAtDeleted(level, k, ns);
    assert T[..1] <= ns <==> ns[0] == T[0];
  }

  /** The depths involved in one step of a removal whose cut lies below the member the first segment names. */
  lemma {:induction false} DescendingDepth(level: Siblings, segs: seq<string>)
    requires segs != [] && Find(level, Trim(segs[0])).Some?
    requires !RemoveBelow(level.members[Find(level, Trim(segs[0])).value].children, segs[1..]).removeOwner
    ensures var T := Trims(segs);
            var n := level.members[Find(level, Trim(segs[0])).value];
            var d := MatchDepth(level, T);
            && T != [] && T[0] == Trim(segs[0]) && T[1..] == Trims(segs[1..])
            && d > 1 && d - 1 == MatchDepth(n.children, T[1..])
            && CutDepth(level, T, d) == CutDepth(n.children, T[1..], d - 1) + 1
  {
    var T := Trims(segs);
    MatchDepthStep(level, segs);
    var k := Find(level, Trim(segs[0])).value;
    RemoveBelowOwner(level.members[k].children, segs[1..]);
    CutDepthStep(level, T, MatchDepth(level, T));
  }

  /** In such a step the member keeps its place and only its children change. */
  lemma {:induction false} DescendingRest(level: Siblings, segs: seq<string>)
    requires segs != [] && Find(level, Trim(segs[0])).Some?
    requires !RemoveBelow(level.members[Find(level, Trim(segs[0])).value].children, segs[1..]).removeOwner
    ensures var k := Find(level, Trim(segs[0])).value;
            var n := level.members[k];
            RemoveBelow(level, segs).rest
            == Collection(level.members[k := n.(children := RemoveBelow(n.children, segs[1..]).rest)])
  {
    var k := Find(level, Trim(segs[0])).value;
    var n := level.members[k];
    assert RemoveBelow(level, segs)
           == Removal(Collection(level.members[k := n.(children := RemoveBelow(n.children, segs[1..]).rest)]), false);
  }

  /** RemovePaths where the member the first segment names stays and the removal happens below it. */
  lemma {:induction false} RemovePathsDescending(level: Siblings, segs: seq<string>, ns: seq<string>)
    requires WellFormed(level)
    requires ns != [] && segs != [] && Find(level, Trim(segs[0])).Some?
    requires !RemoveBelow(level.members[Find(level, Trim(segs[0])).value].children, segs[1..]).removeOwner
    ensures MatchDepth(level, Trims(segs)) > 0 && PathsAfterRemove(level, segs, ns)
    decreases |segs|, 0
  {
    var k := Find(level, Trim(segs[0])).value;
    if Find(level, ns[0]) == Some(k) && |ns| > 1 {
      ChildrenWellFormed(level.members[k]);
      RemovePaths(level.members[k].children, segs[1..], ns[1..]);
      ThroughCut(level, segs, ns);
      ThroughKept(level, segs, ns);
    } else {
      DescendingBeside(level, segs, ns);
    }
  }

  /** The case of RemovePathsDescending where ns does not continue below the member the removal descends into. */
  lemma {:induction false} DescendingBeside(level: Siblings, segs: seq<string>, ns: seq<string>)
    requires ns != [] && segs != [] && Find(level, Trim(segs[0])).Some?
    requires !RemoveBelow(level.members[Find(level, Trim(segs[0])).value].children, segs[1..]).removeOwner
    requires !(Find(level, ns[0]) == Find(level, Trim(segs[0])) && |ns| > 1)
    ensures MatchDepth(level, Trims(segs)) > 0 && PathsAfterRemove(level, segs, ns)
  {
    DescendingDepth(level, segs);
    DescendingRest(level, segs);
    var T := Trims(segs);
    var d := MatchDepth(level, T);
    var k := Find(level, Trim(segs[0])).value;
    var n := level.members[k];
    var n' := n.(children := RemoveBelow(n.children, segs[1..]).rest);
    var c := CutDepth(level, T, d);
    var r := RemoveBelow(level, segs).rest;
    PrefixStep(T, ns, c);
    if Find(level, ns[0]).None? {
      SameNamesSameFind(level.members[k := n'], level.members, ns[0]);
      assert !Has(r, ns) && !Has(level, ns);
    } else if Find(level, ns[0]).value != k {
      NodeAtReplaced(level, k, n', ns);
      assert NodeAt(r, ns) == NodeAt(level, ns);
      assert !(T[..c] <= ns);
    } else {
      NodeAtReplaced(level, k, n', ns);
      assert NodeAt(r, ns) == Some(n') && NodeAt(level, ns) == Some(n);
      assert |T[..c]| > |ns|;
    }
  }

  /** The inductive case of RemovePathsDescending for the deleted paths: ns continues below the member the removal descends into. */
  lemma {:induction false} ThroughCut(level: Siblings, segs: seq<string>, ns: seq<string>)
    requires segs != [] && Find(level, Trim(segs[0])).Some?
    requires !RemoveBelow(level.members[Find(level, Trim(segs[0])).value].children, segs[1..]).removeOwner
    requires |ns| > 1 && Find(level, ns[0]) == Find(level, Trim(segs[0]))
    requires CutPaths(level.members[Find(level, Trim(segs[0])).value].children, segs[1..], ns[1..])
    ensures MatchDepth(level, Trims(segs)) > 0 && CutPaths(level, segs, ns)
  {
    ThroughNodes(level, segs, ns);
    DescendingDepth(level, segs);
    var T := Trims(segs);
    var d := MatchDepth(level, T);
    var n := level.members[Find(level, Trim(segs[0])).value];
    var c' := CutDepth(n.children, T[1..], d - 1);
    PrefixStep(T, ns, c' + 1);
    // The child's statement, and each of its three parts carried up one level.
    var after, before, cut := Has(RemoveBelow(n.children, segs[1..]).rest, ns[1..]), Has(n.children, ns[1..]), T[1..][..c'] <= ns[1..];
    assert after <==> before && !cut;
    assert Has(RemoveBelow(level, segs).rest, ns) == after && Has(level, ns) == before;
    assert ns[0] == T[0] && CutDepth(level, T, d) == c' + 1;
  }

  /** The inductive case of RemovePathsDescending for the paths that stay. */
  lemma {:induction false} ThroughKept(level: Siblings, segs: seq<string>, ns: seq<string>)
    requires segs != [] && Find(level, Trim(segs[0])).Some?
    requires !RemoveBelow(level.members[Find(level, Trim(segs[0])).value].children, segs[1..]).removeOwner
    requires |ns| > 1 && Find(level, ns[0]) == Find(level, Trim(segs[0]))
    requires KeptData(level.members[Find(level, Trim(segs[0])).value].children, segs[1..], ns[1..])
    ensures KeptData(level, segs, ns)
  {
    ThroughNodes(level, segs, ns);
  }

  /** Below the member the removal descends into, the tree before and after is the child collection before and after. */
  lemma {:induction false} ThroughNodes(level: Siblings, segs: seq<string>, ns: seq<string>)
    requires segs != [] && Find(level, Trim(segs[0])).Some?
    requires !RemoveBelow(level.members[Find(level, Trim(segs[0])).value].children, segs[1..]).removeOwner
    requires |ns| > 1 && Find(level, ns[0]) == Find(level, Trim(segs[0]))
    ensures var n := level.members[Find(level, Trim(segs[0])).value];
            && ns[0] == Trims(segs)[0]
            && NodeAt(RemoveBelow(level, segs).rest, ns) == NodeAt(RemoveBelow(n.children, segs[1..]).rest, ns[1..])
            && NodeAt(level, ns) == NodeAt(n.children, ns[1..])
  {
    DescendingDepth(level, segs);
    DescendingRest(level, segs);
    var k := Find(level, Trim(segs[0])).value;
    var n := level.members[k];
    NodeAtReplaced(level, k, n.(children := RemoveBelow(n.children, segs[1..]).rest), ns);
  }

  /**
   * RemoveFromTree keeps the tree invariant: names stay trimmed and unique
   * among siblings, and no node is left with an empty, non-null collection.
   */
  lemma {:induction false} RemoveWellFormed(level: Siblings, segs: seq<string>)
    requires WellFormed(level)
    ensures WellFormed(RemoveBelow(level, segs).rest)
    decreases |segs|
  {
    if segs == [] || Find(level, Trim(segs[0])).None? {
      return;
    }
    var n := level.members[Find(level, Trim(segs[0])).value];
    if RemoveBelow(n.children, segs[1..]).removeOwner {
      WellFormedDeleting(level, segs);
    } else {
      assert n in level.members;
      ChildrenWellFormed(n);
      RemoveWellFormed(n.children, segs[1..]);
      WellFormedDescending(level, segs);
    }
  }

  /** RemoveWellFormed where the member the first segment names is deleted. */
  lemma {:induction false} WellFormedDeleting(level: Siblings, segs: seq<string>)
    requires WellFormed(level)
    requires segs != [] && Find(level, Trim(segs[0])).Some?
    requires RemoveBelow(level.members[Find(level, Trim(segs[0])).value].children, segs[1..]).removeOwner
    ensures WellFormed(RemoveBelow(level, segs).rest)
  {
    var k := Find(level, Trim(segs[0])).value;
    assert RemoveBelow(level, segs).rest == Collection(level.members[..k] + level.members[k + 1..]);
    DeleteWellFormed(level, k);
  }

  /** RemoveWellFormed where the removal happens below the member the first segment names. */
  lemma {:induction false} WellFormedDescending(level: Siblings, segs: seq<string>)
    requires WellFormed(level)
    requires segs != [] && Find(level, Trim(segs[0])).Some?
    requires !RemoveBelow(level.members[Find(level, Trim(segs[0])).value].children, segs[1..]).removeOwner
    requires WellFormed(RemoveBelow(level.members[Find(level, Trim(segs[0])).value].children, segs[1..]).rest)
    ensures WellFormed(RemoveBelow(level, segs).rest)
  {
    var k := Find(level, Trim(segs[0])).value;
    var n := level.members[k];
    assert n in level.members;
    var n' := n.(children := RemoveBelow(n.children, segs[1..]).rest);
    assert WellFormedNode(n');
    DescendingRest(level, segs);
    ReplaceWellFormed(level, k, n');
  }

  /** Deleting a member keeps a collection well formed. */
  lemma {:induction false} DeleteWellFormed(level: Siblings, k: nat)
    requires WellFormed(level) && level.Collection? && k < |level.members|
    ensures WellFormed(Collection(level.members[..k] + level.members[k + 1..]))
  {
    var s := level.members;
    var s' := s[..k] + s[k + 1..];
    forall i, j | 0 <= i < j < |s'|
      ensures s'[i].name != s'[j].name
    {
      var i0, j0 := if i < k then i else i + 1, if j < k then j else j + 1;
      assert s'[i] == s[i0] && s'[j] == s[j0] && i0 < j0;
    }
    assert forall c | c in s' :: c in s[..k] || c in s[k + 1..];
  }

  /** Every prefix of a path that leads to a node leads to a node: the ancestors are there. */
  lemma {:induction false} HasPrefix(level: Siblings, ns: seq<string>, j: nat)
    requires Has(level, ns) && 1 <= j <= |ns|
    ensures Has(level, ns[..j])
    decreases |ns|
  {
    var k := Find(level, ns[0]).value;
    if j > 1 {
      HasPrefix(level.members[k].children, ns[1..], j - 1);
      assert ns[..j][1..] == ns[1..][..j - 1];
    }
  }

  /**
   * Removing the segment path of a node that exists deletes that node and its
   * whole subtree: no path through it leads anywhere afterwards.
   */
  lemma {:induction false} RemoveDeletesSubtree(level: Siblings, segs: seq<string>, ns: seq<string>)
    requires WellFormed(level)
    requires segs != [] && Has(level, Trims(segs)) && Trims(segs) <= ns
    ensures !Has(Remove(level, segs), ns)
  {
    var T := Trims(segs);
    var d := MatchDepth(level, T);
    MatchDepthMeaning(level, T);
    if d < |T| {
      HasPrefix(level, T, d + 1);
    }
    assert d == |T|;
    RemovePaths(level, segs, ns);
    var c := CutDepth(level, T, d);
    assert T[..c] <= T;
  }
}
