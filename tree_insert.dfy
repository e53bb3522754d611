/**
 * What AddToTree (MainWindow.xaml.cs) does to the tree, stated over paths of
 * names: which paths exist afterwards, what the nodes on them hold, how each
 * sibling collection changes, and that the tree invariant is kept.
 */
module InsertProofs {
  import opened Options
  import opened Text
  import opened Tree

  /** Collections whose members carry the same names, in the same order, answer every lookup alike. */
  lemma {:induction false} SameNamesSameFind(a: seq<Node>, b: seq<Node>, name: string)
    requires |a| == |b|
    requires forall j :: 0 <= j < |a| ==> a[j].name == b[j].name
    ensures Find(Collection(a), name) == Find(Collection(b), name)
  {
  }

  /** Appending a node leaves lookups of other names as they were, and finds the new one at the end when it was missing. */
  lemma {:induction false} FindAfterAppend(level: Siblings, x: Node, name: string)
    ensures name != x.name ==> Find(Collection(Elems(level) + [x]), name) == Find(level, name)
    ensures name == x.name && Find(level, name).None? ==> Find(Collection(Elems(level) + [x]), name) == Some(|Elems(level)|)
  {
    var s := Elems(level) + [x];
    assert forall j :: 0 <= j < |Elems(level)| ==> s[j] == Elems(level)[j];
    assert s[|Elems(level)|] == x;
  }

  /** Following a path after member k of level is replaced by a node of the same name. */
  lemma {:induction false} NodeAtReplaced(level: Siblings, k: nat, m: Node, ns: seq<string>)
    requires ns != [] && Find(level, ns[0]).Some?
    requires level.Collection? && k < |level.members| && m.name == level.members[k].name
    ensures var r := Collection(level.members[k := m]);
            var j := Find(level, ns[0]).value;
            && Find(r, ns[0]) == Some(j)
            && (j != k ==> NodeAt(r, ns) == NodeAt(level, ns))
            && (j == k && |ns| == 1 ==> NodeAt(r, ns) == Some(m))
            && (j == k && |ns| > 1 ==> NodeAt(r, ns) == NodeAt(m.children, ns[1..]))
  {
    var r := Collection(level.members[k := m]);
    SameNamesSameFind(r.members, level.members, ns[0]);
  }

  /** Following a path after a node whose name was missing is appended to level. */
  lemma {:induction false} NodeAtAppended(level: Siblings, m: Node, ns: seq<string>)
    requires ns != [] && Find(level, m.name).None?
    ensures var r := Collection(Elems(level) + [m]);
            && (ns[0] != m.name ==> NodeAt(r, ns) == NodeAt(level, ns))
            && (ns[0] == m.name && |ns| == 1 ==> NodeAt(r, ns) == Some(m))
            && (ns[0] == m.name && |ns| > 1 ==> NodeAt(r, ns) == NodeAt(m.children, ns[1..]))
  {
    var r := Collection(Elems(level) + [m]);
    FindAfterAppend(level, m, ns[0]);
    if ns[0] != m.name {
      match Find(level, ns[0])
      case None =>
      case Some(j) => assert r.members[j] == level.members[j];
    }
  }

  lemma {:induction false} TrimsTail(segs: seq<string>)
    requires segs != []
    ensures Trims(segs)[0] == Trim(segs[0]) && Trims(segs[1..]) == Trims(segs)[1..]
  {
  }

  /**
   * After Insert(level, path, segs, icon) a path of names exists exactly when
   * it existed before or is a non-empty prefix of the trimmed segments; the
   * nodes that existed keep their name, path and icon; every node it had to
   * create carries the trimmed segment as name, the inserted path and icon.
   */
  lemma {:induction false} InsertPaths(level: Siblings, path: string, segs: seq<string>, icon: Option<Icon>, ns: seq<string>)
    requires ns != []
    ensures Has(Insert(level, path, segs, icon), ns) <==> Has(level, ns) || ns <= Trims(segs)
    ensures Has(level, ns) ==>
              Shallow(NodeAt(Insert(level, path, segs, icon), ns).value) == Shallow(NodeAt(level, ns).value)
    ensures !Has(level, ns) && ns <= Trims(segs) ==>
              Shallow(NodeAt(Insert(level, path, segs, icon), ns).value) == Node(ns[|ns| - 1], path, Null, icon)
    decreases |segs|, 1
  {
    if segs != [] {
      if Find(level, Trim(segs[0])).None? {
        InsertPathsCreating(level, path, segs, icon, ns);
      } else {
        InsertPathsReusing(level, path, segs, icon, ns);
      }
    }
  }

  /** InsertPaths where the first segment names no member of level, so a node is appended. */
  lemma {:induction false} InsertPathsCreating(level: Siblings, path: string, segs: seq<string>, icon: Option<Icon>, ns: seq<string>)
    requires ns != [] && segs != [] && Find(level, Trim(segs[0])).None?
    ensures Has(Insert(level, path, segs, icon), ns) <==> Has(level, ns) || ns <= Trims(segs)
    ensures Has(level, ns) ==>
              Shallow(NodeAt(Insert(level, path, segs, icon), ns).value) == Shallow(NodeAt(level, ns).value)
    ensures !Has(level, ns) && ns <= Trims(segs) ==>
              Shallow(NodeAt(Insert(level, path, segs, icon), ns).value) == Node(ns[|ns| - 1], path, Null, icon)
    decreases |segs|, 0
  {
    var name := Trim(segs[0]);
    var T := Trims(segs);
    TrimsTail(segs);
    var N := Node(name, path, Insert(Null, path, segs[1..], icon), icon);
    assert Insert(level, path, segs, icon) == Collection(Elems(level) + [N]);
    NodeAtAppended(level, N, ns);
    if ns[0] == name {
      assert !Has(level, ns);
      if |ns| > 1 {
        assert ns <= T <==> ns[1..] <= T[1..];
        InsertPaths(Null, path, segs[1..], icon, ns[1..]);
        assert ns[1..][|ns[1..]| - 1] == ns[|ns| - 1];
      }
    } else {
      assert !(ns <= T);
    }
  }

  /** InsertPaths where the first segment names a member of level, which is reused. */
  lemma {:induction false} InsertPathsReusing(level: Siblings, path: string, segs: seq<string>, icon: Option<Icon>, ns: seq<string>)
    requires ns != [] && segs != [] && Find(level, Trim(segs[0])).Some?
    ensures Has(Insert(level, path, segs, icon), ns) <==> Has(level, ns) || ns <= Trims(segs)
    ensures Has(level, ns) ==>
              Shallow(NodeAt(Insert(level, path, segs, icon), ns).value) == Shallow(NodeAt(level, ns).value)
    ensures !Has(level, ns) && ns <= Trims(segs) ==>
              Shallow(NodeAt(Insert(level, path, segs, icon), ns).value) == Node(ns[|ns| - 1], path, Null, icon)
    decreases |segs|, 0
  {
    var name := Trim(segs[0]);
    var T := Trims(segs);
    TrimsTail(segs);
    var k := Find(level, name).value;
    var n := level.members[k];
    var n' := n.(children := Insert(n.children, path, segs[1..], icon));
    assert Insert(level, path, segs, icon) == Collection(level.members[k := n']);
    if ns[0] == name {
      NodeAtReplaced(level, k, n', ns);
      if |ns| > 1 {
        assert NodeAt(level, ns) == NodeAt(n.children, ns[1..]);
        assert ns <= T <==> ns[1..] <= T[1..];
        InsertPaths(n.children, path, segs[1..], icon, ns[1..]);
        assert ns[1..][|ns[1..]| - 1] == ns[|ns| - 1];
      }
    } else {
      assert !(ns <= T);
      if Find(level, ns[0]).Some? {
        NodeAtReplaced(level, k, n', ns);
      } else {
        SameNamesSameFind(level.members[k := n'], level.members, ns[0]);
      }
    }
  }

  /**
   * Sibling order: in every collection that existed (the root or the
   * children of an existing node), the members keep their positions and own
   * data, and at most one new member is added, at the end.
   */
  lemma {:induction false} InsertKeepsSiblingOrder(level: Siblings, path: string, segs: seq<string>, icon: Option<Icon>, ns: seq<string>)
    requires ns == [] || Has(level, ns)
    ensures var before := Elems(ChildrenAt(level, ns));
            var after := Elems(ChildrenAt(Insert(level, path, segs, icon), ns));
            && |before| <= |after| <= |before| + 1
            && forall j :: 0 <= j < |before| ==> Shallow(after[j]) == Shallow(before[j])
    decreases |segs|
  {
    if segs == [] {
      return;
    }
    if ns == [] {
      InsertTopOrder(level, path, segs, icon);
      return;
    }
    var name := Trim(segs[0]);
    var r := Insert(level, path, segs, icon);
    if Find(level, name).None? {
      var N := Node(name, path, Insert(Null, path, segs[1..], icon), icon);
      assert r == Collection(Elems(level) + [N]);
      NodeAtAppended(level, N, ns);
    } else {
      var k := Find(level, name).value;
      var n := level.members[k];
      var n' := n.(children := Insert(n.children, path, segs[1..], icon));
      assert r == Collection(level.members[k := n']);
      NodeAtReplaced(level, k, n', ns);
      if Find(level, ns[0]) == Some(k) {
        if |ns| > 1 {
          assert NodeAt(level, ns) == NodeAt(n.children, ns[1..]);
          InsertKeepsSiblingOrder(n.children, path, segs[1..], icon, ns[1..]);
        } else {
          InsertKeepsSiblingOrder(n.children, path, segs[1..], icon, []);
        }
      }
    }
  }

  /** InsertKeepsSiblingOrder for the collection Insert starts from. */
  lemma {:induction false} InsertTopOrder(level: Siblings, path: string, segs: seq<string>, icon: Option<Icon>)
    requires segs != []
    ensures var after := Insert(level, path, segs, icon).members;
            && |Elems(level)| <= |after| <= |Elems(level)| + 1
            && forall j :: 0 <= j < |Elems(level)| ==> Shallow(after[j]) == Shallow(Elems(level)[j])
  {
    var name := Trim(segs[0]);
    var r := Insert(level, path, segs, icon);
    if Find(level, name).None? {
      var N := Node(name, path, Insert(Null, path, segs[1..], icon), icon);
      assert r.members == Elems(level) + [N];
      AppendKeepsShallow(Elems(level), N);
    } else {
      var k := Find(level, name).value;
      var n := level.members[k];
      var n' := n.(children := Insert(n.children, path, segs[1..], icon));
      assert r.members == level.members[k := n'];
      ReplaceKeepsShallow(level.members, k, n');
    }
  }

  /** Appending a member leaves the data of the others in place. */
  lemma {:induction false} AppendKeepsShallow(s: seq<Node>, m: Node)
    ensures forall j :: 0 <= j < |s| ==> Shallow((s + [m])[j]) == Shallow(s[j])
  {
    assert forall j :: 0 <= j < |s| ==> (s + [m])[j] == s[j];
  }

  /** Giving a member new children leaves the data of every member in place. */
  lemma {:induction false} ReplaceKeepsShallow(s: seq<Node>, k: nat, m: Node)
    requires k < |s| && m == s[k].(children := m.children)
    ensures forall j :: 0 <= j < |s| ==> Shallow(s[k := m][j]) == Shallow(s[j])
  {
    assert Shallow(m) == Shallow(s[k]);
  }

  /** Re-inserting a segment sequence whose path already exists changes nothing. */
  lemma {:induction false} InsertExisting(level: Siblings, path: string, segs: seq<string>, icon: Option<Icon>)
    requires segs == [] || Has(level, Trims(segs))
    ensures Insert(level, path, segs, icon) == level
    decreases |segs|
  {
    if segs != [] {
      var T := Trims(segs);
      TrimsTail(segs);
      match Find(level, T[0])
      case None =>
        assert false;
      case Some(k) =>
        var n := level.members[k];
        if |segs| > 1 {
          assert NodeAt(level, T) == NodeAt(n.children, T[1..]);
          InsertExisting(n.children, path, segs[1..], icon);
        }
        assert level.members[k := n] == level.members;
    }
  }

  /** The children of a well-formed node form a well-formed collection. */
  lemma {:induction false} ChildrenWellFormed(n: Node)
    requires WellFormedNode(n)
    ensures WellFormed(n.children)
  {
  }

  /** Putting a well-formed node with the same name in place of a member keeps a collection well formed. */
  lemma {:induction false} ReplaceWellFormed(level: Siblings, k: nat, m: Node)
    requires WellFormed(level) && level.Collection? && k < |level.members|
    requires WellFormedNode(m) && m.name == level.members[k].name
    ensures WellFormed(Collection(level.members[k := m]))
  {
    var s := level.members[k := m];
    assert forall c | c in s :: c == m || c in level.members;
    assert forall j :: 0 <= j < |s| ==> s[j].name == level.members[j].name;
  }

  /** Appending a well-formed node under a new name keeps a collection well formed. */
  lemma {:induction false} AppendWellFormed(level: Siblings, m: Node)
    requires WellFormed(level) && WellFormedNode(m)
    requires forall j :: 0 <= j < |Elems(level)| ==> Elems(level)[j].name != m.name
    ensures WellFormed(Collection(Elems(level) + [m]))
  {
    var s := Elems(level) + [m];
    assert forall c | c in s :: c == m || c in Elems(level);
    assert forall j :: 0 <= j < |Elems(level)| ==> s[j] == Elems(level)[j];
  }

  /** A chain of nodes freshly created for the remaining segments is well formed. */
  lemma {:induction false} FreshChainWellFormed(path: string, segs: seq<string>, icon: Option<Icon>)
    ensures WellFormed(Insert(Null, path, segs, icon))
    decreases |segs|
  {
    if segs != [] {
      var name := Trim(segs[0]);
      FreshChainWellFormed(path, segs[1..], icon);
      var N := Node(name, path, Insert(Null, path, segs[1..], icon), icon);
      assert WellFormedNode(N);
    }
  }

  /**
   * AddToTree keeps the tree invariant: names stay trimmed and unique among
   * siblings, and no node is left with an empty, non-null child collection.
   */
  lemma {:induction false} InsertWellFormed(level: Siblings, path: string, segs: seq<string>, icon: Option<Icon>)
    requires WellFormed(level)
    ensures WellFormed(Insert(level, path, segs, icon))
    decreases |segs|
  {
    if segs == [] {
      return;
    }
    var name := Trim(segs[0]);
    var r := Insert(level, path, segs, icon);
    match Find(level, name)
    case None =>
      FreshChainWellFormed(path, segs[1..], icon);
      AppendWellFormed(level, Node(name, path, Insert(Null, path, segs[1..], icon), icon));
    case Some(k) =>
      var n := level.members[k];
      ChildrenWellFormed(n);
      InsertWellFormed(n.children, path, segs[1..], icon);
      ReplaceWellFormed(level, k, n.(children := Insert(n.children, path, segs[1..], icon)));
  }
}
