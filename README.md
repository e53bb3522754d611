# Dora: the name tree and the Miller-column chain

Dora is a WPF file browser. It shows the files of one folder as a tree of
names. Each file name is split on `'-'`, and each segment, trimmed, names one
level of the tree: `a-b-c.txt` becomes `a` › `b` › `c.txt`. The tree is shown in
Miller columns. Selecting an item in one column shows that item's children in
the next column. Double-clicking a leaf opens the file.

This project models the two components that hold that logic and proves what
they guarantee.

- **The tree** (`MainWindow.xaml.cs`, node type `Models/Item.cs`).
  - `AddToTree` finds or creates one node per trimmed segment. It reuses the first sibling with that name and appends a node only when none matches.
  - `RemoveFromTree` follows the same path. It deletes the deepest node it reaches, with that node's subtree. On the way back up, it deletes every ancestor left without children, and it never prunes the root.
  - The folder watcher's events (`Watcher_Changes`) and the initial scan of the folder drive both operations.
  - The model:
    - `tree.dfy`: `Node` and `Siblings` (a child collection that may be null), `Insert` and `RemoveBelow`, and a path-level view of the tree (`NodeAt`, `Has`, `MatchDepth`, `CutDepth`).
    - `tree_insert.dfy` and `tree_remove.dfy`: what each operation does to every path, and that both keep the invariant. The invariant: names are trimmed and unique among siblings, and no child collection is non-null but empty.
    - `tree_remove_order.dfy`: what a removal does to the order of the siblings that remain.
    - `main_window.dfy`: the window's `TreeStore` class, whose methods replace the root collection the way the C# code mutates it in place.
    - `text.dfy`: `String.Trim` with .NET's white-space set, and `String.Split`.
- **The chain** (`Controls/MillerColumns.cs`).
  - `_UpdateChain` keeps the sequence of columns. A new `ItemsSource` resets it. A selection in a column cuts the chain after that column and then appends the selected item's children.
  - Those children come from the item type's `HierarchicalDataTemplate`. It is found by searching the resources of the control and of each enclosing element, then the application's resources. Each dictionary is searched own keys first, then its merged dictionaries, depth-first.
  - The model:
    - `resources.dfy`: resource dictionaries as a datatype and the three search routines.
    - `miller_columns.dfy`: the control as a class with `itemsSource` and `chain`. `UpdateChain` reports the null it would dereference, or hand to `SetBinding`, as a `Fault`.

The WPF binding engine becomes the `evaluate` parameter, from a binding and an item to an optional column. `item.GetType()` becomes `typeOf`. The parent chain of the control becomes the sequence `hosts`.

Where the code and its intended design differ, the model follows the code:

- An intermediate node created by `AddToTree` gets the full path (and icon) of the file being inserted (`MainWindow.xaml.cs:139-143`).
- `RemoveFromTree` with a segment that matches nothing below the top level still deletes something. It deletes the deepest matched node with its subtree, and pruning continues upwards (`MainWindow.xaml.cs:239-242`, `214-221`). Only a first segment that matches nothing at the top level leaves the tree unchanged.
- Deleting `a-b` when `b` is the only child of `a` also deletes `a`, even when `a` is itself a file's node. Deleting `a` deletes the nodes of `a-b`, `a-b-c`, … with it. `CutDepth` states how far up the deletion reaches.
- A type with no data template is not treated as a leaf. `_UpdateChain` dereferences the null template (`MillerColumns.cs:128-131`), and the model reports `Failed(NullTemplate)`. The chain has already been cut back at that point and stays cut.
- A double-click with nothing selected raises `ItemSelected` with a null item (`MillerColumns.cs:80-85`).
- Setting `ItemsSource` to null or to an empty collection leaves the old chain in place (`MillerColumns.cs:93`).

## Model

| member | source | states |
|---|---|---|
| `Text.Trim` | Dora/Dora/MainWindow.xaml.cs:141 | the trimmed name is no longer than the segment and neither starts nor ends with white space |
| `Text.TrimKeepsInfix` | Dora/Dora/MainWindow.xaml.cs:130 | what Trim keeps is a contiguous piece of the segment, and everything cut off on either side is white space |
| `Text.TrimFixesTrimmed` | Dora/Dora/MainWindow.xaml.cs:130-134 | Trim leaves a string unchanged exactly when it is already trimmed, so trimming a stored name again is a no-op |
| `Text.Split` | Dora/Dora/MainWindow.xaml.cs:74 | `Split('-')` yields at least one piece, no piece contains `'-'`, and joining the pieces with `'-'` gives the name back |
| `Text.SplitJoin` | Dora/Dora/MainWindow.xaml.cs:74 | splitting a join of `'-'`-free pieces gives the pieces back, so Split and Join are inverse |
| `Tree.Find` | Dora/Dora/MainWindow.xaml.cs:128-135 | the `Where(...).FirstOrDefault()` lookup: an index of a member with that name such that no earlier member has it, or none when no member (of a null collection, none at all) has it |
| `Tree.Insert` | Dora/Dora/MainWindow.xaml.cs:121-124 | an empty segment array leaves the collection as it was; otherwise the result is a non-null, non-empty collection, so no empty child collection is ever created |
| `Tree.Remove` | Dora/Dora/MainWindow.xaml.cs:226-230 | the root call `RemoveFromTree(segs, null)`: its return value is dropped and the root is never pruned, so a non-null Items is never set to null |
| `Tree.RemoveBelow` | Dora/Dora/MainWindow.xaml.cs:210-237 | when the caller is not asked to delete the owner, the collection left behind is non-null and non-empty |
| `InsertProofs.InsertPaths` | Dora/Dora/MainWindow.xaml.cs:126-184 | after AddToTree a path leads to a node exactly when it did before or it is a prefix of the trimmed segments; existing nodes keep name, FullPath and icon; every created node has the trimmed segment as Name and the inserted file's path and icon |
| `InsertProofs.InsertKeepsSiblingOrder` | Dora/Dora/MainWindow.xaml.cs:159-177 | in every collection that existed (the root or an existing node's children) the members keep their positions and own data and at most one member is added, at the end |
| `InsertProofs.InsertTopOrder` | Dora/Dora/MainWindow.xaml.cs:159-169 | the same for the root Items: old members stay in place with their data, at most one is appended |
| `InsertProofs.InsertExisting` | Dora/Dora/MainWindow.xaml.cs:181-184 | re-inserting a segment sequence whose trimmed path already leads to a node changes nothing |
| `InsertProofs.FreshChainWellFormed` | Dora/Dora/MainWindow.xaml.cs:139-179 | the chain of nodes created below a new node is well formed |
| `InsertProofs.InsertWellFormed` | Dora/Dora/MainWindow.xaml.cs:126-184 | AddToTree keeps sibling names trimmed and unique and creates no empty non-null child collection |
| `RemoveProofs.MatchDepthMeaning` | Dora/Dora/MainWindow.xaml.cs:199-210 | the descent of RemoveFromTree stops at MatchDepth: the path of that length leads to a node and one name more leads nowhere |
| `RemoveProofs.CutDepthMeaning` | Dora/Dora/MainWindow.xaml.cs:214-226 | the upward pruning passes exactly the ancestors left with a single child and stops at the first one with another count (or below the root) |
| `RemoveProofs.RemoveBelowOwner` | Dora/Dora/MainWindow.xaml.cs:194-243 | the owner is to be deleted exactly when nothing matched (then nothing changed) or the cut reaches this level's member and it was the only one; a non-null collection never becomes null |
| `RemoveProofs.RemovePaths` | Dora/Dora/MainWindow.xaml.cs:187-243 | when the first segment matches, a path disappears exactly when it runs through the node at the cut; every path left was there before, with the same node data |
| `RemoveProofs.RemoveDeletesSubtree` | Dora/Dora/MainWindow.xaml.cs:210-232 | removing the segment path of an existing node leaves no path through that node |
| `RemoveOrder.RemoveKeepsSiblingOrder` | Dora/Dora/MainWindow.xaml.cs:214-232 | in every collection still there after RemoveFromTree (the root or a surviving node's children) the members keep their order and own data; either none is missing, or exactly one is, at the returned gap, and the members after it close the gap as `ObservableCollection.Remove` does |
| `RemoveProofs.RemoveWellFormed` | Dora/Dora/MainWindow.xaml.cs:214-226 | RemoveFromTree keeps sibling names trimmed and unique and leaves no empty non-null child collection |
| `MainWindow.Segments` | Dora/Dora/MainWindow.xaml.cs:91-106 | a file name always yields at least one segment |
| `MainWindow.Changed` | Dora/Dora/MainWindow.xaml.cs:86-109 | Watcher_Changes on the root: after a create or a rename the new name's trimmed path leads to a node; a delete never sets a non-null Items to null |
| `MainWindow.ScanAll` | Dora/Dora/MainWindow.xaml.cs:72-75 | the initial scan, AddToTree on each listed file in order: a non-empty listing leaves Items non-null and non-empty |
| `MainWindow.RenameMoves` | Dora/Dora/MainWindow.xaml.cs:98-107 | after a rename the new path is in the tree, and of the paths through the old name's node only the prefixes of the new path remain |
| `MainWindow.ChangedWellFormed` | Dora/Dora/MainWindow.xaml.cs:86-109 | every watcher event (delete, create, rename as remove then add) keeps the tree invariant |
| `MainWindow.ScanPaths` | Dora/Dora/MainWindow.xaml.cs:70-75 | after the initial scan a path leads to a node exactly when it did before or it is a prefix of some listed file's trimmed segments |
| `MainWindow.ScanWellFormed` | Dora/Dora/MainWindow.xaml.cs:70-75 | the initial scan keeps the tree invariant |
| `MainWindow.ThroughAny` | Dora/Dora/MainWindow.xaml.cs:72-75 | the scan's path predicate holds exactly when the path is a prefix of one listed file's segments |
| `MainWindow.TreeStore.constructor` | Dora/Dora/MainWindow.xaml.cs:29-30 | Items starts as a null collection, which is well formed |
| `MainWindow.TreeStore.AddToTree` | Dora/Dora/MainWindow.xaml.cs:111-185 | the root becomes Insert of the old root, and the tree invariant is kept |
| `MainWindow.TreeStore.RemoveFromTree` | Dora/Dora/MainWindow.xaml.cs:187-243 | the root becomes Remove of the old root (the root itself is never pruned), and the tree invariant is kept |
| `MainWindow.TreeStore.WatcherChanges` | Dora/Dora/MainWindow.xaml.cs:86-109 | each event is applied as Changed prescribes (a rename removes the old name before adding the new one), and the invariant is kept |
| `MainWindow.TreeStore.FirstExploration` | Dora/Dora/MainWindow.xaml.cs:70-75 | the loop leaves the root as the scan of the listing in order, and the invariant is kept |
| `Resources.Tables` | Dora/Dora/Controls/MillerColumns.cs:167-176 | the first table searched is the dictionary's own entries |
| `Resources.FirstHit` | Dora/Dora/Controls/MillerColumns.cs:167-171 | the search finds nothing exactly when no table holds a data template key for the type |
| `Resources.FirstHitAt` | Dora/Dora/Controls/MillerColumns.cs:167-176 | the first table with the key decides, and its entry is returned as a template or null when it is not a HierarchicalDataTemplate |
| `Resources.FirstHitAppend` | Dora/Dora/Controls/MillerColumns.cs:173-176 | searching two runs of tables is searching the first and only then the second |
| `Resources.SearchDictionary` | Dora/Dora/Controls/MillerColumns.cs:165-179 | returns true exactly when own keys or a merged dictionary (in order, depth-first) hold the key, with the template found there; false with a null template otherwise |
| `Resources.InScopes` | Dora/Dora/Controls/MillerColumns.cs:153-163 | the scope search finds nothing exactly when no scope's dictionary finds the key |
| `Resources.InScopesAt` | Dora/Dora/Controls/MillerColumns.cs:156-159 | the innermost scope whose dictionary finds the key decides; outer scopes are not consulted |
| `Resources.InScopesAppend` | Dora/Dora/Controls/MillerColumns.cs:148 | extra scopes after the element scopes are consulted only when those found nothing |
| `Resources.SearchUpToWindow` | Dora/Dora/Controls/MillerColumns.cs:153-163 | the loop over the hosts returns what InScopes finds, and false with a null template when nothing is found |
| `Resources.FindTemplate` | Dora/Dora/Controls/MillerColumns.cs:145-151 | the template is TemplateFor: the element scopes innermost first, then the application resources, null if none matches |
| `MillerColumns.IndexOf` | Dora/Dora/Controls/MillerColumns.cs:110 | the first index of the column in the chain, or -1 exactly when it is not there |
| `MillerColumns.SelectedShape` | Dora/Dora/Controls/MillerColumns.cs:110-135 | a selection in the column at first index i keeps columns 0..i, has length i+1, or i+2 with the resolved children appended as the last column |
| `MillerColumns.ReselectStable` | Dora/Dora/Controls/MillerColumns.cs:113-115 | selecting again in the same column replaces the column to its right instead of stacking a new one |
| `MillerColumns.MillerColumns.constructor` | Dora/Dora/Controls/MillerColumns.cs:32-35 | ItemsSource and Chain start null |
| `MillerColumns.MillerColumns.UpdateChain` | Dora/Dora/Controls/MillerColumns.cs:90-136 | no source: nothing changes; reset: the chain is exactly [ItemsSource]; a sender that is not a collection or not in the chain: nothing changes; a selection: the chain is cut after the column and the resolved children appended, or a fault (null chain, template or binding) with the chain left cut |
| `MillerColumns.MillerColumns.SetItemsSource` | Dora/Dora/Controls/MillerColumns.cs:67-70 | a new non-empty ItemsSource resets the chain to it; an unchanged, null or empty one leaves the chain alone |
| `MillerColumns.MillerColumns.DoubleClick` | Dora/Dora/Controls/MillerColumns.cs:77-87 | ItemSelected is raised, with the selected item or null, exactly when there is no selection or the item's SubData is null; the chain is not touched |

## Left out

- Icon extraction (`MainWindow.xaml.cs:145-157`) is a call into the operating system. It is the `iconOf` parameter, and `None` stands for the `FileNotFoundException` case. Other exceptions it may throw are not modelled.
- The folder dialog, the message box, the re-prompt, `Directory.GetFiles` and `Path.GetFileName` (`MainWindow.xaml.cs:61-84`) are user interface and file-system I/O. The listing is taken as the two input sequences.
- `MainWindow.TreeStore.FirstExploration`: requires at least as many full paths as names. The C# code reads the folder twice and would index past the first array if the folder grew in between.
- `Process.Start` on `ItemSelected` (`MainWindow.xaml.cs:50-54`) launches an external process and is not modelled.
- The `FileSystemWatcher` set-up and `Dispatcher.Invoke` (`MainWindow.xaml.cs:43-47`, `56-59`) exist for threading. Events are modelled as calls that already run one after another on the UI thread.
- The WPF dependency-property plumbing, `DummyObject` and `_EvaluateBinding` (`MillerColumns.cs:15-38`, `138-143`) depend on the binding engine. They are the `evaluate` parameter, and the attached `Track` property's wiring is replaced by passing the sender `ListBox` to `UpdateChain` and `DoubleClick`.
- Columns are compared by value, while `IndexOf` on the `ObservableCollection` compares collection references. Two equal but distinct columns are not told apart.
- The chain's columns are the same collection objects as the tree's `SubData`, so later tree edits show up in open columns. The model's columns are snapshots and do not capture that aliasing.
- A `SelectedItem` that is not an `Item` (the `as Item` cast at `MillerColumns.cs:80`) is not modelled. Selected items are always nodes or null.
- Exceptions other than the two null dereferences and the rejected null binding of `_UpdateChain` (for example, an `ItemsSource` that is not enumerable) are not modelled.
- `Converters/ListToImageConverter.cs` only chooses images for display. It is not part of this model.
