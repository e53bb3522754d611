/**
 * The MillerColumns control (Controls/MillerColumns.cs): a chain of columns,
 * the first showing ItemsSource and each further one the children of the
 * item selected in the column before it.
 *
 * A column is the item collection a ListBox shows. Columns are compared by
 * value here; the control compares them as references.
 */
module MillerColumns {
  import opened Options
  import opened Tree
  import opened Resources

  /** The items one ListBox shows. */
  type Column = seq<Node>

  /** The ListBox that raised an event: its DataContext, if it is a collection, and its SelectedItem. */
  datatype ListBox = ListBox(dataContext: Option<Column>, selectedItem: Option<Node>)

  /** Why _UpdateChain stops with an exception: a null it dereferences or hands to SetBinding. */
  datatype Fault =
    | NullChain    // Chain was never set, so IndexOf is called on null
    | NullTemplate // no scope has a data template for the item's type
    | NullBinding  // the template's ItemsSource binding is unset, which SetBinding rejects

  datatype Outcome = Completed | Failed(fault: Fault)

  /** `collection.IndexOf(c)`: the first position of c in chain, -1 if it is not there. */
  function IndexOf(chain: seq<Column>, c: Column): (r: int)
    ensures -1 <= r < |chain|
    ensures r >= 0 ==> chain[r] == c && forall j :: 0 <= j < r ==> chain[j] != c
    ensures r == -1 <==> c !in chain
  {
    if chain == [] then -1
    else if chain[0] == c then 0
    else
      var r := IndexOf(chain[1..], c);
      assert forall j :: 1 <= j < |chain| ==> chain[j] == chain[1..][j - 1];
      if r == -1 then -1 else r + 1
  }

  /** The chain cut just after the first column equal to c, as a selection in c leaves it. */
  function Truncated(chain: seq<Column>, c: Column): seq<Column>
    requires c in chain
  {
    chain[..IndexOf(chain, c) + 1]
  }

  /** The chain after a selection in column c: cut after c, then the selected item's children, if any, appended. */
  function Selected(chain: seq<Column>, c: Column, next: Option<Column>): seq<Column>
    requires c in chain
  {
    match next
    case None => Truncated(chain, c)
    case Some(n) => Truncated(chain, c) + [n]
  }

  /**
   * A selection keeps the columns up to and including c, ends with c or with
   * the new column right after it, and c is still found first where it was.
   */
  lemma {:induction false} SelectedShape(chain: seq<Column>, c: Column, next: Option<Column>)
    requires c in chain
    ensures var i := IndexOf(chain, c);
            var r := Selected(chain, c, next);
            && |r| == (if next.Some? then i + 2 else i + 1)
            && r[..i + 1] == chain[..i + 1]
            && r[i] == c
            && (next.Some? ==> r[i + 1] == next.value)
            && IndexOf(r, c) == i
  {
    var i := IndexOf(chain, c);
    var r := Selected(chain, c, next);
    assert r[..i + 1] == chain[..i + 1];
    IndexOfPrefix(chain, c, r);
  }

  /** Position of the first c is the same in any sequence that agrees with chain up to it. */
  lemma {:induction false} IndexOfPrefix(chain: seq<Column>, c: Column, other: seq<Column>)
    requires c in chain
    requires IndexOf(chain, c) < |other| && other[..IndexOf(chain, c) + 1] == chain[..IndexOf(chain, c) + 1]
    ensures IndexOf(other, c) == IndexOf(chain, c)
  {
    var i := IndexOf(chain, c);
    assert other[i] == chain[..i + 1][i];
    assert forall j :: 0 <= j < i ==> other[j] == chain[..i + 1][j];
  }

  /**
   * Selecting again in the same column, with the same children resolved,
   * leaves the chain as the first selection did: the column to the right of
   * c is replaced, not stacked.
   */
  lemma {:induction false} ReselectStable(chain: seq<Column>, c: Column, next: Option<Column>, again: Option<Column>)
    requires c in chain
    ensures c in Selected(chain, c, next)
    ensures Selected(Selected(chain, c, next), c, again) == Selected(chain, c, again)
  {
    SelectedShape(chain, c, next);
    var i := IndexOf(chain, c);
    var r := Selected(chain, c, next);
    assert r[..i + 1] == chain[..i + 1];
  }

  /** The control's state, and what it consults but does not own. */
  class MillerColumns {
    var itemsSource: Option<Column>
    /** The Chain property; null until the first non-empty ItemsSource arrives. */
    var chain: Option<seq<Column>>
    /** The Resources of the control and of each enclosing element, innermost first. */
    const hosts: seq<ResourceDictionary>
    /** Application.Current.Resources. */
    const application: ResourceDictionary
    /** item.GetType(). */
    const typeOf: Node -> TypeKey
    /** _EvaluateBinding: the binding resolved with the item as data context, if it yields a collection. */
    const evaluate: (Binding, Node) -> Option<Column>

    constructor(hosts: seq<ResourceDictionary>, application: ResourceDictionary,
                typeOf: Node -> TypeKey, evaluate: (Binding, Node) -> Option<Column>)
      ensures itemsSource.None? && chain.None?
      ensures this.hosts == hosts && this.application == application
      ensures this.typeOf == typeOf && this.evaluate == evaluate
    {
      itemsSource := None;
      chain := None;
      this.hosts := hosts;
      this.application := application;
      this.typeOf := typeOf;
      this.evaluate := evaluate;
    }

    /**
     * _UpdateChain(sender). A null sender means ItemsSource changed. The
     * chain is cut back before the template is looked up, so a fault leaves
     * it cut.
     */
    method UpdateChain(sender: Option<ListBox>) returns (outcome: Outcome)
      modifies this`chain
      ensures itemsSource.None? || itemsSource.value == [] ==> chain == old(chain) && outcome == Completed
      ensures itemsSource.Some? && itemsSource.value != [] && sender.None? ==>
                chain == Some([itemsSource.value]) && outcome == Completed
      ensures itemsSource.Some? && itemsSource.value != [] && sender.Some? ==>
                var lb := sender.value;
                && (lb.dataContext.None? ==> chain == old(chain) && outcome == Completed)
                && (lb.dataContext.Some? && old(chain).None? ==> chain == old(chain) && outcome == Failed(NullChain))
                && (lb.dataContext.Some? && old(chain).Some? && lb.dataContext.value !in old(chain).value ==>
                      chain == old(chain) && outcome == Completed)
                && (lb.dataContext.Some? && old(chain).Some? && lb.dataContext.value in old(chain).value ==>
                      var cut := Truncated(old(chain).value, lb.dataContext.value);
                      if lb.selectedItem.None? then
                        chain == Some(cut) && outcome == Completed
                      else
                        var item := lb.selectedItem.value;
                        match TemplateFor(hosts, application, typeOf(item))
                        case None => chain == Some(cut) && outcome == Failed(NullTemplate)
                        case Some(t) =>
                          match t.itemsSource
                          case None => chain == Some(cut) && outcome == Failed(NullBinding)
                          case Some(b) =>
                            chain == Some(Selected(old(chain).value, lb.dataContext.value, evaluate(b, item)))
                            && outcome == Completed)
    {
      if itemsSource.None? || itemsSource.value == [] {
        return Completed;
      }
      if sender.None? {
        chain := Some([itemsSource.value]);
        return Completed;
      }
      var lb := sender.value;
      if lb.dataContext.None? {
        return Completed;
      }
      if chain.None? {
        return Failed(NullChain);
      }
      var index := IndexOf(chain.value, lb.dataContext.value);
      if index == -1 {
        return Completed;
      }
      ghost var before := chain.value;
      index := index + 1;
      while |chain.value| > index
        invariant chain.Some? && index <= |chain.value|
        invariant chain.value[..index] == before[..index]
        decreases |chain.value|
      {
        chain := Some(chain.value[..index] + chain.value[index + 1..]);
      }
      assert chain.value == before[..index];
      if lb.selectedItem.None? {
        return Completed;
      }
      var item := lb.selectedItem.value;
      var template := FindTemplate(hosts, application, typeOf(item));
      if template.None? {
        return Failed(NullTemplate);
      }
      if template.value.itemsSource.None? {
        return Failed(NullBinding);
      }
      var newSource := evaluate(template.value.itemsSource.value, item);
      if newSource.Some? {
        chain := Some(chain.value + [newSource.value]);
      }
      return Completed;
    }

    /**
     * Setting ItemsSource: the property-changed callback, and with it
     * _UpdateChain(null), runs only when the value actually changes.
     */
    method SetItemsSource(v: Option<Column>)
      modifies this`itemsSource, this`chain
      ensures itemsSource == v
      ensures v == old(itemsSource) || v.None? || v.value == [] ==> chain == old(chain)
      ensures v != old(itemsSource) && v.Some? && v.value != [] ==> chain == Some([v.value])
    {
      if v != itemsSource {
        itemsSource := v;
        var _ := UpdateChain(None);
      }
    }

    /**
     * The MouseDoubleClick handler: ItemSelected is raised, with the selected
     * item (null when there is none), exactly when that item has no children
     * collection. The chain is left alone.
     */
    method DoubleClick(sender: Option<ListBox>) returns (raised: bool, arg: Option<Node>)
      ensures arg == (if sender.Some? then sender.value.selectedItem else None)
      ensures raised <==> arg.None? || arg.value.children.Null?
    {
      arg := if sender.Some? then sender.value.selectedItem else None;
      raised := arg.None? || arg.value.children.Null?;
    }
  }
}
