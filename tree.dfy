/**
 * The name tree that MainWindow builds from file names (MainWindow.xaml.cs,
 * AddToTree and RemoveFromTree). Every file name is split on '-' into
 * segments; each segment, trimmed, names one level of the tree.
 *
 * The C# code mutates shared ObservableCollections in place. Here a sibling
 * collection is a value, and each operation returns the new collection; the
 * class in MainWindow swaps it in as the new root.
 */
module Tree {
  import opened Options
  import opened Text

  /** The bitmap the icon extractor attaches to a new item; the tree logic never reads it. */
  datatype Icon = Icon(handle: nat)

  /** Item (Models/Item.cs). children == Null is a null SubData: the item is a leaf. */
  datatype Node = Node(name: string, fullPath: string, children: Siblings, icon: Option<Icon>)

  /** A sibling collection, the root Items or a SubData, which may be a null reference. */
  datatype Siblings = Null | Collection(members: seq<Node>)

  /** The members of a collection; a null collection has none. */
  function Elems(level: Siblings): seq<Node> {
    if level.Null? then [] else level.members
  }

  /** A node's own data (name, path, icon) without its subtree. */
  function Shallow(n: Node): Node {
    n.(children := Null)
  }

  /** The segments as the descent compares them, each trimmed. */
  function Trims(segs: seq<string>): (r: seq<string>)
    ensures |r| == |segs|
  {
    if segs == [] then [] else [Trim(segs[0])] + Trims(segs[1..])
  }

  /** Index of the first member called name, if any. */
  function FirstNamed(s: seq<Node>, name: string): (r: Option<nat>)
    ensures r.Some? ==> r.value < |s| && s[r.value].name == name
    ensures r.Some? ==> forall j :: 0 <= j < r.value ==> s[j].name != name
    ensures r.None? ==> forall j :: 0 <= j < |s| ==> s[j].name != name
  {
    if s == [] then None
    else if s[0].name == name then Some(0)
    else match FirstNamed(s[1..], name)
      case None => None
      case Some(k) => Some(k + 1)
  }

  /** `collection?.Where(x => x.Name == name).FirstOrDefault()`, as an index. */
  function Find(level: Siblings, name: string): (r: Option<nat>)
    ensures r.Some? ==> level.Collection? && r.value < |level.members| && level.members[r.value].name == name
    ensures r.Some? ==> forall j :: 0 <= j < r.value ==> level.members[j].name != name
    ensures r.None? ==> forall j :: 0 <= j < |Elems(level)| ==> Elems(level)[j].name != name
  {
    if level.Null? then None else FirstNamed(level.members, name)
  }

  /**
   * AddToTree(path, segs, parent) on the collection `level` of parent: finds
   * or creates the child named by the first trimmed segment and continues
   * below it. A created node gets the inserted file's path and icon, even when
   * it is an intermediate node; a null collection becomes a singleton.
   */
  function Insert(level: Siblings, path: string, segs: seq<string>, icon: Option<Icon>): (r: Siblings)
    ensures segs == [] ==> r == level
    ensures segs != [] ==> r.Collection? && r.members != []
    decreases |segs|
  {
    if segs == [] then level
    else
      var name := Trim(segs[0]);
      match Find(level, name)
      case None =>
        Collection(Elems(level) + [Node(name, path, Insert(Null, path, segs[1..], icon), icon)])
      case Some(k) =>
        var n := level.members[k];
        Collection(level.members[k := n.(children := Insert(n.children, path, segs[1..], icon))])
  }

  /**
   * What RemoveFromTree hands back to its caller: the collection after the
   * removal, and whether the owner of that collection must be removed too
   * (the C# method returns its parent argument for that, null otherwise).
   */
  datatype Removal = Removal(rest: Siblings, removeOwner: bool)

  /**
   * RemoveFromTree(segs, parent) on the collection `level` of parent. When the
   * segments run out, or the next one matches nothing, the owner is to be
   * removed. Otherwise the matched child is handled one level down; if it
   * must go, it is deleted here, and the owner must go in turn exactly when
   * this collection is now empty.
   */
  function RemoveBelow(level: Siblings, segs: seq<string>): (r: Removal)
    ensures !r.removeOwner ==> r.rest.Collection? && r.rest.members != []
    decreases |segs|
  {
    if segs == [] then Removal(level, true)
    else match Find(level, Trim(segs[0]))
      case None => Removal(level, true)
      case Some(k) =>
        var n := level.members[k];
        var below := RemoveBelow(n.children, segs[1..]);
        if below.removeOwner then
          var s := level.members[..k] + level.members[k + 1..];
          Removal(Collection(s), s == [])
        else
          Removal(Collection(level.members[k := n.(children := below.rest)]), false)
  }

  /**
   * RemoveFromTree(segs, null): the root collection is never removed itself,
   * so Items is not set to null.
   */
  function Remove(items: Siblings, segs: seq<string>): (r: Siblings)
    ensures items.Collection? ==> r.Collection?
  {
    RemoveBelow(items, segs).rest
  }

  /** The node reached by following the names ns from the collection level, first match at each step. */
  function NodeAt(level: Siblings, ns: seq<string>): Option<Node>
    decreases |ns|
  {
    if ns == [] then None
    else match Find(level, ns[0])
      case None => None
      case Some(k) => if |ns| == 1 then Some(level.members[k]) else NodeAt(level.members[k].children, ns[1..])
  }

  predicate Has(level: Siblings, ns: seq<string>) {
    NodeAt(level, ns).Some?
  }

  /** The collection found at ns: level itself for the empty path, null where nothing is found. */
  function ChildrenAt(level: Siblings, ns: seq<string>): Siblings {
    if ns == [] then level
    else match NodeAt(level, ns)
      case None => Null
      case Some(n) => n.children
  }

  function ChildCount(level: Siblings, ns: seq<string>): nat {
    |Elems(ChildrenAt(level, ns))|
  }

  /** How many leading names of ns can be followed from level. */
  function MatchDepth(level: Siblings, ns: seq<string>): (d: nat)
    ensures d <= |ns|
    decreases |ns|
  {
    if ns == [] then 0
    else match Find(level, ns[0])
      case None => 0
      case Some(k) => 1 + MatchDepth(level.members[k].children, ns[1..])
  }

  /**
   * The depth of the highest node that goes when the node at ns[..d] is
   * removed: walking up from it, every ancestor that had it as its only
   * child goes too, and the walk stops below the root.
   */
  function CutDepth(level: Siblings, ns: seq<string>, d: nat): (c: nat)
    requires 1 <= d <= |ns|
    ensures 1 <= c <= d
    decreases d
  {
    if d > 1 && ChildCount(level, ns[..d - 1]) == 1 then CutDepth(level, ns, d - 1) else d
  }

  /** No two members of a collection share a name. */
  predicate Distinct(s: seq<Node>) {
    forall i, j :: 0 <= i < j < |s| ==> s[i].name != s[j].name
  }

  /**
   * The invariant every stored node keeps: its name is trimmed, its children
   * (if any) are a non-empty collection of distinct names, and so on below.
   */
  predicate WellFormedNode(n: Node)
    decreases n
  {
    && IsTrimmed(n.name)
    && match n.children
       case Null => true
       case Collection(s) => s != [] && Distinct(s) && forall c | c in s :: WellFormedNode(c)
  }

  /** The invariant of a collection; unlike a node's children, the root may be empty. */
  predicate WellFormed(level: Siblings) {
    Distinct(Elems(level)) && forall c | c in Elems(level) :: WellFormedNode(c)
  }
}
