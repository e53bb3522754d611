/**
 * How MillerColumns finds the HierarchicalDataTemplate for an item's type
 * (MillerColumns.cs, _FindTemplate, _SearchUpToWindow, _SearchDictionary):
 * through the resource dictionaries of the control and of each enclosing
 * element, innermost first, then the application's.
 */
module Resources {
  import opened Options

  /** A System.Type, by name. */
  type TypeKey = string

  /** The raw binding a template's ItemsSource holds. */
  datatype Binding = Binding(path: string)

  /** A HierarchicalDataTemplate; its ItemsSource binding may be unset. */
  datatype Template = Template(itemsSource: Option<Binding>)

  /** A value stored in a resource dictionary. */
  datatype Resource = Hierarchical(template: Template) | OtherResource

  /** A resource key: a DataTemplateKey carries the data type it is for. */
  datatype ResourceKey = DataTemplateKey(dataType: TypeKey) | OtherKey(name: string)

  /** A ResourceDictionary: its own entries and its MergedDictionaries, in order. */
  datatype ResourceDictionary = ResourceDictionary(entries: map<ResourceKey, Resource>, merged: seq<ResourceDictionary>)

  /** `resource as HierarchicalDataTemplate`. */
  function AsTemplate(r: Resource): Option<Template> {
    match r
    case Hierarchical(t) => Some(t)
    case OtherResource => None
  }

  /**
   * The entry tables of a dictionary and everything merged into it, in the
   * order a depth-first walk meets them: its own table, then each merged
   * dictionary's tables in turn.
   */
  function Tables(d: ResourceDictionary): (r: seq<map<ResourceKey, Resource>>)
    ensures r != [] && r[0] == d.entries
    decreases d, |d.merged| + 1
  {
    [d.entries] + TablesFrom(d, 0)
  }

  /** The tables of d's merged dictionaries from index i on. */
  function TablesFrom(d: ResourceDictionary, i: nat): seq<map<ResourceKey, Resource>>
    requires i <= |d.merged|
    decreases d, |d.merged| - i
  {
    if i == |d.merged| then [] else Tables(d.merged[i]) + TablesFrom(d, i + 1)
  }

  /**
   * The first table in ts with a data template key for key: None when there
   * is none, otherwise the template found there, which is None when the
   * entry is not a HierarchicalDataTemplate.
   */
  function FirstHit(ts: seq<map<ResourceKey, Resource>>, key: TypeKey): (r: Option<Option<Template>>)
    ensures r.None? <==> forall i :: 0 <= i < |ts| ==> DataTemplateKey(key) !in ts[i]
  {
    if ts == [] then None
    else if DataTemplateKey(key) in ts[0] then Some(AsTemplate(ts[0][DataTemplateKey(key)]))
    else
      assert forall i :: 1 <= i < |ts| ==> ts[i] == ts[1..][i - 1];
      FirstHit(ts[1..], key)
  }

  /** The table that decides is the first one holding a data template key for key. */
  lemma {:induction false} FirstHitAt(ts: seq<map<ResourceKey, Resource>>, key: TypeKey, i: nat)
    requires i < |ts| && DataTemplateKey(key) in ts[i]
    requires forall j :: 0 <= j < i ==> DataTemplateKey(key) !in ts[j]
    ensures FirstHit(ts, key) == Some(AsTemplate(ts[i][DataTemplateKey(key)]))
  {
    if i > 0 {
      assert ts[1..][i - 1] == ts[i];
      FirstHitAt(ts[1..], key, i - 1);
    }
  }

  /** Looking through two runs of tables is looking through the first, then the second. */
  lemma {:induction false} FirstHitAppend(a: seq<map<ResourceKey, Resource>>, b: seq<map<ResourceKey, Resource>>, key: TypeKey)
    ensures FirstHit(a + b, key) == if FirstHit(a, key).Some? then FirstHit(a, key) else FirstHit(b, key)
  {
    if a != [] {
      FirstHitAppend(a[1..], b, key);
      assert (a + b)[1..] == a[1..] + b;
    } else {
      assert a + b == b;
    }
  }

  /** What looking key up in d, own keys first and then the merged dictionaries depth-first, finds. */
  function Lookup(d: ResourceDictionary, key: TypeKey): Option<Option<Template>> {
    FirstHit(Tables(d), key)
  }

  /** _SearchDictionary: own keys, then each merged dictionary in order, recursively. */
  method SearchDictionary(d: ResourceDictionary, key: TypeKey) returns (found: bool, template: Option<Template>)
    ensures found <==> Lookup(d, key).Some?
    ensures found ==> template == Lookup(d, key).value
    ensures !found ==> template.None?
    decreases d
  {
    var k := DataTemplateKey(key);
    if k in d.entries {
      return true, AsTemplate(d.entries[k]);
    }
    FirstHitAppend([d.entries], TablesFrom(d, 0), key);
    var i := 0;
    while i < |d.merged|
      invariant 0 <= i <= |d.merged|
      invariant Lookup(d, key) == FirstHit(TablesFrom(d, i), key)
    {
      FirstHitAppend(Tables(d.merged[i]), TablesFrom(d, i + 1), key);
      found, template := SearchDictionary(d.merged[i], key);
      if found {
        return;
      }
      i := i + 1;
    }
    return false, None;
  }

  /**
   * The result of searching the dictionaries of hosts, innermost first:
   * the first dictionary whose lookup finds a data template key decides.
   */
  function InScopes(hosts: seq<ResourceDictionary>, key: TypeKey): (r: Option<Option<Template>>)
    ensures r.None? <==> forall i :: 0 <= i < |hosts| ==> Lookup(hosts[i], key).None?
  {
    if hosts == [] then None
    else if Lookup(hosts[0], key).Some? then Lookup(hosts[0], key)
    else
      assert forall i :: 1 <= i < |hosts| ==> hosts[i] == hosts[1..][i - 1];
      InScopes(hosts[1..], key)
  }

  /** The innermost scope whose lookup finds a data template key decides; outer ones are not consulted. */
  lemma {:induction false} InScopesAt(hosts: seq<ResourceDictionary>, key: TypeKey, i: nat)
    requires i < |hosts| && Lookup(hosts[i], key).Some?
    requires forall j :: 0 <= j < i ==> Lookup(hosts[j], key).None?
    ensures InScopes(hosts, key) == Lookup(hosts[i], key)
  {
    if i > 0 {
      assert hosts[1..][i - 1] == hosts[i];
      InScopesAt(hosts[1..], key, i - 1);
    }
  }

  /** Searching more scopes after some only matters when those found nothing. */
  lemma {:induction false} InScopesAppend(hosts: seq<ResourceDictionary>, more: seq<ResourceDictionary>, key: TypeKey)
    ensures InScopes(hosts + more, key)
            == if InScopes(hosts, key).Some? then InScopes(hosts, key) else InScopes(more, key)
  {
    if hosts != [] {
      InScopesAppend(hosts[1..], more, key);
      assert (hosts + more)[1..] == hosts[1..] + more;
    } else {
      assert hosts + more == more;
    }
  }

  /** The template found for key: the element hosts, innermost first, then the application; None if no scope has one. */
  function TemplateFor(hosts: seq<ResourceDictionary>, application: ResourceDictionary, key: TypeKey): Option<Template> {
    match InScopes(hosts + [application], key)
    case None => None
    case Some(t) => t
  }

  /**
   * _SearchUpToWindow: the dictionaries of the control and of each enclosing
   * element, given innermost first, searched in turn.
   */
  method SearchUpToWindow(hosts: seq<ResourceDictionary>, key: TypeKey) returns (found: bool, template: Option<Template>)
    ensures found <==> InScopes(hosts, key).Some?
    ensures found ==> template == InScopes(hosts, key).value
    ensures !found ==> template.None?
  {
    var i := 0;
    while i < |hosts|
      invariant 0 <= i <= |hosts|
      invariant InScopes(hosts, key) == InScopes(hosts[i..], key)
    {
      assert hosts[i..][1..] == hosts[i + 1..];
      found, template := SearchDictionary(hosts[i], key);
      if found {
        return;
      }
      i := i + 1;
    }
    return false, None;
  }

  /** _FindTemplate: the element scopes, then the application's resources. */
  method FindTemplate(hosts: seq<ResourceDictionary>, application: ResourceDictionary, key: TypeKey)
    returns (template: Option<Template>)
    ensures template == TemplateFor(hosts, application, key)
  {
    InScopesAppend(hosts, [application], key);
    assert InScopes([application], key) == Lookup(application, key);
    var found;
    found, template := SearchUpToWindow(hosts, key);
    if !found {
      found, template := SearchDictionary(application, key);
    }
  }
}
