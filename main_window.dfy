/**
 * The tree-keeping part of MainWindow (MainWindow.xaml.cs): the Items root
 * collection, the initial scan of the chosen folder, and the dispatch of the
 * folder watcher's change events to AddToTree and RemoveFromTree.
 */
module MainWindow {
  import opened Options
  import opened Text
  import opened Tree
  import InsertProofs
  import RemoveProofs

  /** A FileSystemWatcher event, by change type; names are file names, fullPath the file's path. */
  datatype ChangeEvent =
    | Deleted(name: string)
    | Created(fullPath: string, name: string)
    | Renamed(fullPath: string, name: string, oldName: string)

  /** A file name cut into the segments the tree is keyed by: `name.Split('-')`. */
  function Segments(name: string): (r: seq<string>)
    ensures r != []
  {
    Split(name, '-')
  }

  /**
   * The root collection after one change event, remove before add for a
   * rename: a created or renamed file's trimmed path then leads to a node,
   * and a deletion never sets Items to null.
   */
  function Changed(items: Siblings, e: ChangeEvent, iconOf: string -> Option<Icon>): (r: Siblings)
    ensures !e.Deleted? ==> Has(r, Trims(Segments(e.name)))
    ensures e.Deleted? && items.Collection? ==> r.Collection?
  {
    match e
    case Deleted(name) => Remove(items, Segments(name))
    case Created(path, name) =>
      InsertProofs.InsertPaths(items, path, Segments(name), iconOf(path), Trims(Segments(name)));
      Insert(items, path, Segments(name), iconOf(path))
    case Renamed(path, name, oldName) =>
      var removed := Remove(items, Segments(oldName));
      InsertProofs.InsertPaths(removed, path, Segments(name), iconOf(path), Trims(Segments(name)));
      Insert(removed, path, Segments(name), iconOf(path))
  }

  /** The root collection after adding the listed files one after the other, in listing order. */
  function ScanAll(items: Siblings, fullNames: seq<string>, names: seq<string>, iconOf: string -> Option<Icon>): (r: Siblings)
    requires |fullNames| == |names|
    ensures names != [] ==> r.Collection? && r.members != []
    decreases |names|
  {
    if names == [] then items
    else
      var last := |names| - 1;
      Insert(ScanAll(items, fullNames[..last], names[..last], iconOf),
             fullNames[last], Segments(names[last]), iconOf(fullNames[last]))
  }

  /**
   * After a rename, the new name's path is in the tree; of the paths through
   * the old name's node (which existed), exactly the prefixes of the new path
   * are there.
   */
  lemma {:induction false} RenameMoves(items: Siblings, path: string, name: string, oldName: string,
                    iconOf: string -> Option<Icon>, ns: seq<string>)
    requires WellFormed(items)
    requires Has(items, Trims(Segments(oldName))) && Trims(Segments(oldName)) <= ns
    ensures Has(Changed(items, Renamed(path, name, oldName), iconOf), Trims(Segments(name)))
    ensures Has(Changed(items, Renamed(path, name, oldName), iconOf), ns) <==> ns <= Trims(Segments(name))
  {
    var segs := Segments(name);
    var removed := Remove(items, Segments(oldName));
    var after := Insert(removed, path, segs, iconOf(path));
    assert Changed(items, Renamed(path, name, oldName), iconOf) == after;
    var T := Trims(segs);
    assert |T| == |segs| > 0;
    RemoveProofs.RemoveDeletesSubtree(items, Segments(oldName), ns);
    assert !Has(removed, ns);
    InsertProofs.InsertPaths(removed, path, segs, iconOf(path), ns);
    InsertProofs.InsertPaths(removed, path, segs, iconOf(path), T);
  }

  /** Every change event keeps the tree invariant. */
  lemma {:induction false} ChangedWellFormed(items: Siblings, e: ChangeEvent, iconOf: string -> Option<Icon>)
    requires WellFormed(items)
    ensures WellFormed(Changed(items, e, iconOf))
  {
    match e
    case Deleted(name) =>
      RemoveProofs.RemoveWellFormed(items, Segments(name));
    case Created(path, name) =>
      InsertProofs.InsertWellFormed(items, path, Segments(name), iconOf(path));
    case Renamed(path, name, oldName) =>
      RemoveProofs.RemoveWellFormed(items, Segments(oldName));
      InsertProofs.InsertWellFormed(Remove(items, Segments(oldName)), path, Segments(name), iconOf(path));
  }

  /** The trimmed segment paths of the listed files, in listing order. */
  function Keys(names: seq<string>): (r: seq<seq<string>>)
    ensures |r| == |names|
    decreases |names|
  {
    if names == [] then [] else Keys(names[..|names| - 1]) + [Trims(Segments(names[|names| - 1]))]
  }

  /** The j-th key is the j-th file's trimmed segment path. */
  lemma {:induction false} KeysAt(names: seq<string>, j: nat)
    requires j < |names|
    ensures Keys(names)[j] == Trims(Segments(names[j]))
    decreases |names|
  {
    var last := |names| - 1;
    var init := Keys(names[..last]);
    assert Keys(names) == init + [Trims(Segments(names[last]))];
    assert |init| == last;
    if j < last {
      KeysAt(names[..last], j);
      assert names[..last][j] == names[j];
      assert Keys(names)[j] == init[j];
    } else {
      assert Keys(names)[j] == Trims(Segments(names[last]));
    }
  }

  /** Some path of paths, searched from the last, runs through the node at ns. */
  predicate Through(paths: seq<seq<string>>, ns: seq<string>)
    decreases |paths|
  {
    paths != [] && (ns <= paths[|paths| - 1] || Through(paths[..|paths| - 1], ns))
  }

  /** Through holds exactly when ns is a prefix of one of the paths. */
  lemma {:induction false} ThroughAny(paths: seq<seq<string>>, ns: seq<string>)
    ensures Through(paths, ns) <==> exists j :: 0 <= j < |paths| && ns <= paths[j]
    decreases |paths|
  {
    if paths != [] {
      var last := |paths| - 1;
      ThroughAny(paths[..last], ns);
      if exists j :: 0 <= j < |paths| && ns <= paths[j] {
        var j :| 0 <= j < |paths| && ns <= paths[j];
        if j < last {
          assert paths[..last][j] == paths[j];
        }
      }
      if Through(paths[..last], ns) {
        var j :| 0 <= j < last && ns <= paths[..last][j];
        assert paths[..last][j] == paths[j];
      }
    }
  }

  /**
   * After the scan, a path is in the tree exactly when it was there before or
   * it leads to one of the scanned files' nodes.
   */
  lemma {:induction false} ScanPaths(items: Siblings, fullNames: seq<string>, names: seq<string>,
                                     iconOf: string -> Option<Icon>, ns: seq<string>)
    requires |fullNames| == |names| && ns != []
    ensures Has(ScanAll(items, fullNames, names, iconOf), ns) <==> Has(items, ns) || Through(Keys(names), ns)
    decreases |names|
  {
    if names != [] {
      var last := |names| - 1;
      ScanPaths(items, fullNames[..last], names[..last], iconOf, ns);
      ScanStepPaths(items, fullNames, names, iconOf, ns);
    }
  }

  /** One file more in the scan: ns is added exactly when it leads to that file's node. */
  lemma {:induction false} ScanStepPaths(items: Siblings, fullNames: seq<string>, names: seq<string>,
                                         iconOf: string -> Option<Icon>, ns: seq<string>)
    requires |fullNames| == |names| && names != [] && ns != []
    ensures var last := |names| - 1;
            && (Has(ScanAll(items, fullNames, names, iconOf), ns)
                <==> Has(ScanAll(items, fullNames[..last], names[..last], iconOf), ns) || ns <= Keys(names)[last])
            && (Through(Keys(names), ns) <==> Through(Keys(names[..last]), ns) || ns <= Keys(names)[last])
  {
    var last := |names| - 1;
    var before := ScanAll(items, fullNames[..last], names[..last], iconOf);
    var segs := Segments(names[last]);
    assert ScanAll(items, fullNames, names, iconOf) == Insert(before, fullNames[last], segs, iconOf(fullNames[last]));
    InsertProofs.InsertPaths(before, fullNames[last], segs, iconOf(fullNames[last]), ns);
    KeysLast(names);
  }

  lemma {:induction false} KeysLast(names: seq<string>)
    requires names != []
    ensures Keys(names)[..|names| - 1] == Keys(names[..|names| - 1])
    ensures Keys(names)[|names| - 1] == Trims(Segments(names[|names| - 1]))
  {
  }

  /** Scanning one more file of the listing inserts that file last. */
  lemma {:induction false} ScanOneMore(items: Siblings, fullNames: seq<string>, names: seq<string>,
                    iconOf: string -> Option<Icon>, i: nat)
    requires i < |names| <= |fullNames|
    ensures ScanAll(items, fullNames[..i + 1], names[..i + 1], iconOf)
            == Insert(ScanAll(items, fullNames[..i], names[..i], iconOf),
                      fullNames[i], Segments(names[i]), iconOf(fullNames[i]))
  {
    assert fullNames[..i + 1][..i] == fullNames[..i];
    assert names[..i + 1][..i] == names[..i];
  }

  /** The scan keeps the tree invariant. */
  lemma {:induction false} ScanWellFormed(items: Siblings, fullNames: seq<string>, names: seq<string>,
                                          iconOf: string -> Option<Icon>)
    requires |fullNames| == |names| && WellFormed(items)
    ensures WellFormed(ScanAll(items, fullNames, names, iconOf))
    decreases |names|
  {
    if names != [] {
      var last := |names| - 1;
      ScanWellFormed(items, fullNames[..last], names[..last], iconOf);
      InsertProofs.InsertWellFormed(ScanAll(items, fullNames[..last], names[..last], iconOf),
                                    fullNames[last], Segments(names[last]), iconOf(fullNames[last]));
    }
  }

  /** The window's tree: the Items collection and how icons are looked up for new items. */
  class TreeStore {
    var items: Siblings
    /** Icon.ExtractAssociatedIcon for a path; None where it throws FileNotFoundException. */
    const iconOf: string -> Option<Icon>

    ghost predicate Valid()
      reads this
    {
      WellFormed(items)
    }

    /** Items starts out as a null collection. */
    constructor(iconOf: string -> Option<Icon>)
      ensures Valid()
      ensures items == Null && this.iconOf == iconOf
    {
      items := Null;
      this.iconOf := iconOf;
    }

    /** AddToTree(path, segs, null). */
    method AddToTree(path: string, segs: seq<string>)
      requires Valid()
      modifies this
      ensures Valid()
      ensures items == Insert(old(items), path, segs, iconOf(path))
    {
      InsertProofs.InsertWellFormed(items, path, segs, iconOf(path));
      items := Insert(items, path, segs, iconOf(path));
    }

    /** RemoveFromTree(segs, null); what the call returns at the root is discarded. */
    method RemoveFromTree(segs: seq<string>)
      requires Valid()
      modifies this
      ensures Valid()
      ensures items == Remove(old(items), segs)
    {
      RemoveProofs.RemoveWellFormed(items, segs);
      items := Remove(items, segs);
    }

    /** Watcher_Changes, with the event already marshalled onto the UI thread. */
    method WatcherChanges(e: ChangeEvent)
      requires Valid()
      modifies this
      ensures Valid()
      ensures items == Changed(old(items), e, iconOf)
    {
      match e
      case Deleted(name) =>
        RemoveFromTree(Segments(name));
      case Created(path, name) =>
        AddToTree(path, Segments(name));
      case Renamed(path, name, oldName) =>
        RemoveFromTree(Segments(oldName));
        AddToTree(path, Segments(name));
    }

    /** The loop of OpenDialogAndExecuteFirstExploration over the folder listing. */
    method FirstExploration(fullNames: seq<string>, names: seq<string>)
      requires Valid()
      requires |names| <= |fullNames|
      modifies this
      ensures Valid()
      ensures items == ScanAll(old(items), fullNames[..|names|], names, iconOf)
    {
      var i := 0;
      while i < |names|
        invariant 0 <= i <= |names|
        invariant Valid()
        invariant items == ScanAll(old(items), fullNames[..i], names[..i], iconOf)
      {
        ScanOneMore(old(items), fullNames, names, iconOf, i);
        AddToTree(fullNames[i], Segments(names[i]));
        i := i + 1;
      }
      assert names[..i] == names;
    }
  }
}
