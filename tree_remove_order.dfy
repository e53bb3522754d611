/**
 * What RemoveFromTree (MainWindow.xaml.cs) does to the order of siblings:
 * ObservableCollection.Remove closes the gap its removed member leaves, so
 * every collection that is still there keeps its members in order.
 */
module RemoveOrder {
  import opened Options
  import opened Text
  import opened Tree
  import opened InsertProofs
  import opened RemoveProofs

  /** Two member sequences hold the same nodes' own data, position by position. */
  predicate SameData(a: seq<Node>, b: seq<Node>) {
    |a| == |b| && forall j :: 0 <= j < |a| ==> Shallow(a[j]) == Shallow(b[j])
  }

  /**
   * after is before in the same order, with the same own data: with no gap,
   * no member is missing; with a gap at k, the member at k is gone and the
   * members after it have moved up by one.
   */
  predicate GapAt(before: seq<Node>, after: seq<Node>, gap: Option<nat>) {
    match gap
    case None => SameData(after, before)
    case Some(k) => k < |before| && SameData(after, before[..k] + before[k + 1..])
  }

  /**
   * Sibling order: in every collection left after RemoveFromTree (the root or
   * the children of a node that is still there), the members keep their
   * order and own data, and at most one of them, at the returned gap, is gone.
   */
  lemma {:induction false} RemoveKeepsSiblingOrder(level: Siblings, segs: seq<string>, ns: seq<string>)
    returns (gap: Option<nat>)
    requires WellFormed(level)
    requires ns == [] || Has(Remove(level, segs), ns)
    ensures GapAt(Elems(ChildrenAt(level, ns)), Elems(ChildrenAt(Remove(level, segs), ns)), gap)
    decreases |segs|, 1
  {
    if segs == [] || Find(level, Trim(segs[0])).None? {
      assert Remove(level, segs) == level;
      assert SameData(Elems(ChildrenAt(level, ns)), Elems(ChildrenAt(level, ns)));
      return None;
    }
    var n := level.members[Find(level, Trim(segs[0])).value];
    if RemoveBelow(n.children, segs[1..]).removeOwner {
      gap := OrderDeleting(level, segs, ns);
    } else if ns == [] {
      OrderTop(level, segs);
      gap := None;
    } else {
      gap := OrderDescending(level, segs, ns);
    }
  }

  /** RemoveKeepsSiblingOrder below level when the member the first segment names stays. */
  lemma {:induction false} OrderDescending(level: Siblings, segs: seq<string>, ns: seq<string>)
    returns (gap: Option<nat>)
    requires WellFormed(level)
    requires segs != [] && Find(level, Trim(segs[0])).Some?
    requires !RemoveBelow(level.members[Find(level, Trim(segs[0])).value].children, segs[1..]).removeOwner
    requires ns != [] && Has(Remove(level, segs), ns)
    ensures GapAt(Elems(ChildrenAt(level, ns)), Elems(ChildrenAt(Remove(level, segs), ns)), gap)
    decreases |segs|, 0
  {
    var k := Find(level, Trim(segs[0])).value;
    var n := level.members[k];
    DescendingRest(level, segs);
    ChildrenReplaced(level, k, n.(children := RemoveBelow(n.children, segs[1..]).rest), ns);
    if Find(level, ns[0]) == Some(k) {
      assert n in level.members;
      ChildrenWellFormed(n);
      if |ns| > 1 {
        ThroughNodes(level, segs, ns);
      }
      gap := RemoveKeepsSiblingOrder(n.children, segs[1..], ns[1..]);
    } else {
      var before := Elems(ChildrenAt(level, ns));
      assert SameData(before, before);
      gap := None;
    }
  }

  /** RemoveKeepsSiblingOrder where the member the first segment names is deleted from level. */
  lemma {:induction false} OrderDeleting(level: Siblings, segs: seq<string>, ns: seq<string>)
    returns (gap: Option<nat>)
    requires WellFormed(level)
    requires segs != [] && Find(level, Trim(segs[0])).Some?
    requires RemoveBelow(level.members[Find(level, Trim(segs[0])).value].children, segs[1..]).removeOwner
    requires ns == [] || Has(Remove(level, segs), ns)
    ensures GapAt(Elems(ChildrenAt(level, ns)), Elems(ChildrenAt(Remove(level, segs), ns)), gap)
  {
    var k := Find(level, Trim(segs[0])).value;
    var s := level.members;
    assert Remove(level, segs) == Collection(s[..k] + s[k + 1..]);
    if ns == [] {
      assert SameData(s[..k] + s[k + 1..], s[..k] + s[k + 1..]);
      gap := Some(k);
    } else {
      NodeAtDeleted(level, k, ns);
      var before := Elems(ChildrenAt(level, ns));
      assert SameData(before, before);
      gap := None;
    }
  }

  /** RemoveKeepsSiblingOrder for level itself when the member the first segment names stays. */
  lemma {:induction false} OrderTop(level: Siblings, segs: seq<string>)
    requires segs != [] && Find(level, Trim(segs[0])).Some?
    requires !RemoveBelow(level.members[Find(level, Trim(segs[0])).value].children, segs[1..]).removeOwner
    ensures SameData(Elems(Remove(level, segs)), Elems(level))
  {
    var k := Find(level, Trim(segs[0])).value;
    var n := level.members[k];
    DescendingRest(level, segs);
    ReplaceKeepsShallow(level.members, k, n.(children := RemoveBelow(n.children, segs[1..]).rest));
  }

  /**
   * The collection found at ns after member k of level is replaced by a node
   * of the same name: beside that member it is the one found before, at or
   * below it it is the one found from the new node.
   */
  lemma {:induction false} ChildrenReplaced(level: Siblings, k: nat, m: Node, ns: seq<string>)
    requires level.Collection? && k < |level.members| && m.name == level.members[k].name
    requires ns != []
    ensures var r := Collection(level.members[k := m]);
            && (Find(level, ns[0]) != Some(k) ==> ChildrenAt(r, ns) == ChildrenAt(level, ns))
            && (Find(level, ns[0]) == Some(k) ==>
                  && ChildrenAt(r, ns) == ChildrenAt(m.children, ns[1..])
                  && ChildrenAt(level, ns) == ChildrenAt(level.members[k].children, ns[1..]))
  {
    var r := Collection(level.members[k := m]);
    SameNamesSameFind(r.members, level.members, ns[0]);
    if Find(level, ns[0]).Some? {
      NodeAtReplaced(level, k, m, ns);
    }
  }
}
