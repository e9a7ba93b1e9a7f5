/** The registry as values: `pluginMap_` maps each registered class to its ordered
    name-to-instance collection, and every plugin object lives in a store indexed
    by its reference. This module states when the two agree and what the
    registry and selection operations do to them. */
module Registry {
  import opened JavaLang
  import opened OrderedMaps
  import opened Plugins

  type Objects = map<Ref, Plugin>
  type PluginMap = map<PluginClass, OrderedMap<Ref>>

  /** The instance registered under `k` in class `c` exists, belongs to `c` and is
      named `k`. */
  predicate EntryAgrees(objects: Objects, c: PluginClass, k: string, r: Ref) {
    r in objects && objects[r].cls == c && objects[r].name == k
  }

  /** The registry and the object store agree:
      only `GrxBasePlugin` classes are registered, every class collection is a
      well-formed ordered map, every entry is an object of that class filed under
      its own name, and every object's class is registered. */
  ghost predicate Consistent(objects: Objects, pluginMap: PluginMap) {
    && (forall c :: c in pluginMap ==> c.isPlugin && pluginMap[c].Valid())
    && (forall c, k :: c in pluginMap && k in pluginMap[c].entries ==>
          EntryAgrees(objects, c, k, pluginMap[c].entries[k]))
    && (forall r :: r in objects ==> objects[r].cls in pluginMap && WellKinded(objects[r]))
  }

  /** `r` is the instance its class collection holds under `r`'s own name. */
  predicate IsRegistered(objects: Objects, pluginMap: PluginMap, r: Ref) {
    && r in objects
    && objects[r].cls in pluginMap
    && objects[r].name in pluginMap[objects[r].cls].entries
    && pluginMap[objects[r].cls].entries[objects[r].name] == r
  }

  /** Under Consistent, being some entry of some class is being registered under
      one's own name. */
  lemma EntryIsRegistered(objects: Objects, pluginMap: PluginMap, c: PluginClass, k: string)
    requires Consistent(objects, pluginMap)
    requires c in pluginMap && k in pluginMap[c].entries
    ensures IsRegistered(objects, pluginMap, pluginMap[c].entries[k])
  {
  }

  /** `o'` differs from `o` at most in the selection and focus of its objects and
      in the lifecycle and timing of its views: every object keeps its class,
      its name and its kind. */
  ghost predicate SameShape(o: Objects, o': Objects) {
    && o'.Keys == o.Keys
    && forall q :: q in o ==>
         o'[q].cls == o[q].cls && o'[q].name == o[q].name && (o'[q].Item? <==> o[q].Item?)
  }

  /** Changing only selection, focus or view state keeps the registry consistent
      and registers the same objects. */
  lemma SameShapeKeepsConsistent(o: Objects, o': Objects, pluginMap: PluginMap)
    requires Consistent(o, pluginMap) && SameShape(o, o')
    ensures Consistent(o', pluginMap)
    ensures forall q :: IsRegistered(o, pluginMap, q) <==> IsRegistered(o', pluginMap, q)
  {
    forall c, k | c in pluginMap && k in pluginMap[c].entries
      ensures EntryAgrees(o', c, k, pluginMap[c].entries[k])
    {
      assert EntryAgrees(o, c, k, pluginMap[c].entries[k]);
    }
  }

  /** A newly allocated object of a registered class, not yet filed anywhere,
      keeps the registry consistent and registers nothing new. */
  lemma AddObjectKeepsConsistent(objects: Objects, pluginMap: PluginMap, n: Ref, p: Plugin)
    requires Consistent(objects, pluginMap) && n !in objects
    requires p.cls in pluginMap && WellKinded(p)
    ensures Consistent(objects[n := p], pluginMap)
    ensures forall q :: IsRegistered(objects[n := p], pluginMap, q) <==> IsRegistered(objects, pluginMap, q)
  {
    forall c, k | c in pluginMap && k in pluginMap[c].entries
      ensures EntryAgrees(objects[n := p], c, k, pluginMap[c].entries[k])
    {
      assert EntryAgrees(objects, c, k, pluginMap[c].entries[k]);
    }
  }

  /** Two instances registered in the same class never share a name. This holds
      because a class collection is a map, so it files one instance per name. */
  lemma {:induction false} RegisteredNamesUnique(objects: Objects, pluginMap: PluginMap, p: Ref, q: Ref)
    requires Consistent(objects, pluginMap)
    requires IsRegistered(objects, pluginMap, p) && IsRegistered(objects, pluginMap, q)
    requires objects[p].cls == objects[q].cls && objects[p].name == objects[q].name
    ensures p == q
  {
  }

  // ---------------------------------------------------------------- selection

  /** Unselect every item in `vs`, one after the other (views are skipped). */
  function UnselectAll(objects: Objects, vs: seq<Ref>): (o: Objects)
    ensures o.Keys == objects.Keys
    decreases |vs|
  {
    if vs == [] then objects
    else
      var o := UnselectAll(objects, vs[..|vs| - 1]);
      var q := vs[|vs| - 1];
      if q in o && o[q].Item? then o[q := o[q].(selected := false)] else o
  }

  /** The effect of UnselectAll on one object: exactly the items listed lose their
      selection, and nothing else about any object changes. */
  lemma {:induction false} UnselectAllAt(objects: Objects, vs: seq<Ref>, q: Ref)
    requires q in objects
    ensures UnselectAll(objects, vs)[q] ==
      if q in vs && objects[q].Item? then objects[q].(selected := false) else objects[q]
    decreases |vs|
  {
    if vs != [] {
      var init := vs[..|vs| - 1];
      UnselectAllAt(objects, init, q);
      assert vs == init + [vs[|vs| - 1]];
    }
  }

  /** One step of the unselect loop of `setSelectedItem`, with the item itself
      held at its old state: the next listed item loses its selection, unless it
      is the item itself. */
  lemma UnselectStep(objects: Objects, vs: seq<Ref>, j: nat, r: Ref)
    requires j < |vs| && r in objects && vs[j] in objects && objects[vs[j]].Item?
    ensures var x := UnselectAll(objects, vs[..j])[r := objects[r]];
      vs[j] in x && x[vs[j]].Item? &&
      UnselectAll(objects, vs[..j + 1])[r := objects[r]] ==
        if vs[j] != r then x[vs[j] := x[vs[j]].(selected := false)] else x
  {
    var q := vs[j];
    assert vs[..j + 1][..j] == vs[..j];
    UnselectAllAt(objects, vs[..j], q);
  }

  /** `setSelectedItem(item, select)` on the objects: selecting an exclusive item
      first unselects every instance in its class collection; then the item takes
      the requested state. */
  function SelectItem(objects: Objects, pluginMap: PluginMap, r: Ref, select: bool): (o: Objects)
    requires r in objects && objects[r].Item? && objects[r].cls in pluginMap
    requires pluginMap[objects[r].cls].Valid()
  {
    var item := objects[r];
    if select && item.exclusive then
      UnselectAll(objects, pluginMap[item.cls].Values())[r := item.(selected := select)]
    else
      objects[r := item.(selected := select)]
  }

  /** What SelectItem guarantees: the item ends in the requested state; after
      selecting an exclusive item no other registered instance of its class is
      selected, and every object outside that class collection is as it was;
      otherwise no other object changes; and only selection ever changes. */
  lemma SelectItemEffect(objects: Objects, pluginMap: PluginMap, r: Ref, select: bool)
    requires Consistent(objects, pluginMap)
    requires r in objects && objects[r].Item?
    ensures var o := SelectItem(objects, pluginMap, r, select);
      && o.Keys == objects.Keys
      && o[r] == objects[r].(selected := select)
      && (forall q :: q in objects && objects[q].Item? ==> o[q].Item? && o[q] == objects[q].(selected := o[q].selected))
      && (forall q :: q in objects && objects[q].View? ==> o[q] == objects[q])
      && (select && objects[r].exclusive ==>
            forall q :: q in objects && q != r && objects[q].cls == objects[r].cls ==>
              IsRegistered(objects, pluginMap, q) ==> !o[q].selected)
      && (select && objects[r].exclusive ==>
            forall q :: q in objects && q != r && !(objects[q].cls == objects[r].cls && IsRegistered(objects, pluginMap, q)) ==>
              o[q] == objects[q])
      && (!(select && objects[r].exclusive) ==>
            forall q :: q in objects && q != r ==> o[q] == objects[q])
      && (forall q :: q in objects && q != r && objects[q].Item? && o[q].selected ==> objects[q].selected)
  {
    var o := SelectItem(objects, pluginMap, r, select);
    var vs := pluginMap[objects[r].cls].Values();
    forall q | q in objects && q != r
      ensures o[q] == if select && objects[r].exclusive && q in vs && objects[q].Item?
                      then objects[q].(selected := false) else objects[q]
    {
      UnselectAllAt(objects, vs, q);
    }
    if select && objects[r].exclusive {
      SelectItemExclusive(objects, pluginMap, r);
      ValuesRegistered(objects, pluginMap, objects[r].cls);
    }
  }

  /** Every instance a class collection holds is a registered object of that
      class. */
  lemma ValuesRegistered(objects: Objects, pluginMap: PluginMap, c: PluginClass)
    requires Consistent(objects, pluginMap) && c in pluginMap
    ensures forall q :: q in pluginMap[c].Values() ==>
      q in objects && objects[q].cls == c && IsRegistered(objects, pluginMap, q)
  {
    var m := pluginMap[c];
    var vs := m.Values();
    forall i | 0 <= i < |vs|
      ensures vs[i] in objects && objects[vs[i]].cls == c && IsRegistered(objects, pluginMap, vs[i])
    {
      assert m.keys[i] in m.entries;
      EntryIsRegistered(objects, pluginMap, c, m.keys[i]);
      assert EntryAgrees(objects, c, m.keys[i], vs[i]);
    }
  }

  /** Selecting an exclusive item unselects every other registered instance of its
      class. */
  lemma SelectItemExclusive(objects: Objects, pluginMap: PluginMap, r: Ref)
    requires Consistent(objects, pluginMap)
    requires r in objects && objects[r].Item? && objects[r].exclusive
    ensures var o := SelectItem(objects, pluginMap, r, true);
      forall q :: q in objects && q != r && objects[q].cls == objects[r].cls ==>
        IsRegistered(objects, pluginMap, q) ==> o[q].Item? && !o[q].selected
  {
    var o := SelectItem(objects, pluginMap, r, true);
    var vs := pluginMap[objects[r].cls].Values();
    forall q | q in objects && q != r && objects[q].cls == objects[r].cls && IsRegistered(objects, pluginMap, q)
      ensures o[q].Item? && !o[q].selected
    {
      var m := pluginMap[objects[q].cls];
      var i := IndexOf(m.keys, objects[q].name);
      assert vs[i] == q;
      assert WellKinded(objects[q]) && WellKinded(objects[r]);
      UnselectAllAt(objects, vs, q);
    }
  }

  /** Every item of `s` unselected, everything else as it was. */
  function UnselectedIn(objects: Objects, s: set<Ref>): (o: Objects)
    ensures o.Keys == objects.Keys
  {
    map q | q in objects :: if q in s && objects[q].Item? then objects[q].(selected := false) else objects[q]
  }

  /** `clearItemSelection()` on the objects: every registered item is unselected;
      objects that are not registered keep their state. */
  ghost function ClearedSelection(objects: Objects, pluginMap: PluginMap): Objects {
    map q | q in objects ::
      if IsRegistered(objects, pluginMap, q) && objects[q].Item? then objects[q].(selected := false)
      else objects[q]
  }

  /** Whether some registered item is selected (then clearing the selection changes
      something and raises the selection flag). */
  ghost predicate SomeRegisteredSelected(objects: Objects, pluginMap: PluginMap) {
    exists q :: q in objects && IsRegistered(objects, pluginMap, q) && objects[q].Item? && objects[q].selected
  }

  /** Some item of `s` is selected. */
  ghost predicate SomeSelectedIn(objects: Objects, s: set<Ref>) {
    exists q :: q in s && q in objects && objects[q].Item? && objects[q].selected
  }

  /** Unselecting one more object `p`: an item loses its selection, a view is
      skipped, and `p` was selected before exactly when it was selected at the
      start. */
  lemma UnselectOneMore(objects: Objects, s: set<Ref>, p: Ref)
    requires p in objects && p !in s
    ensures var u := UnselectedIn(objects, s);
      && u[p] == objects[p]
      && UnselectedIn(objects, s + {p}) == (if objects[p].Item? then u[p := u[p].(selected := false)] else u)
      && (SomeSelectedIn(objects, s + {p}) <==>
            SomeSelectedIn(objects, s) || (objects[p].Item? && objects[p].selected))
  {
    if objects[p].Item? && objects[p].selected {
      assert p in s + {p};
    }
    if SomeSelectedIn(objects, s + {p}) {
      var q :| q in s + {p} && q in objects && objects[q].Item? && objects[q].selected;
      if q != p {
        assert q in s;
      }
    }
  }

  /** Selecting changes neither the shape of the store nor any focus. */
  lemma SelectItemShape(objects: Objects, pluginMap: PluginMap, r: Ref, select: bool)
    requires Consistent(objects, pluginMap)
    requires r in objects && objects[r].Item?
    ensures var o := SelectItem(objects, pluginMap, r, select);
      && o[r] == objects[r].(selected := select)
      && SameShape(objects, o)
      && (forall q :: q in objects && objects[q].Item? ==> o[q].focused == objects[q].focused)
  {
    SelectItemEffect(objects, pluginMap, r, select);
  }

  /** Unselecting every registered object is `clearItemSelection()`. */
  lemma ClearedIsUnselectedIn(objects: Objects, pluginMap: PluginMap, s: set<Ref>)
    requires forall q :: q in s <==> IsRegistered(objects, pluginMap, q)
    ensures ClearedSelection(objects, pluginMap) == UnselectedIn(objects, s)
    ensures SomeRegisteredSelected(objects, pluginMap) <==> SomeSelectedIn(objects, s)
  {
  }

  // ---------------------------------------------------------------- traversal

  /** A walk over `pluginMap_` that has finished the classes of `done`:
      `visited` holds exactly the instances registered in those classes. */
  ghost predicate VisitedClasses(objects: Objects, pluginMap: PluginMap, done: set<PluginClass>, visited: set<Ref>) {
    forall q :: q in visited <==> IsRegistered(objects, pluginMap, q) && objects[q].cls in done
  }

  /** The same walk in the middle of class `c`, whose collection has been walked
      up to (not including) key position `j`. */
  ghost predicate VisitedUpTo(objects: Objects, pluginMap: PluginMap, done: set<PluginClass>,
                              c: PluginClass, j: nat, visited: set<Ref>)
    requires c in pluginMap && j <= |pluginMap[c].keys|
  {
    forall q :: q in visited <==>
      IsRegistered(objects, pluginMap, q) &&
      (objects[q].cls in done || (objects[q].cls == c && objects[q].name in pluginMap[c].keys[..j]))
  }

  /** The walk visits the instance at key position `j` of class `c` next: it is an
      object of class `c`, it has not been visited, and visiting it extends the
      walk by one position. */
  lemma VisitNext(objects: Objects, pluginMap: PluginMap, done: set<PluginClass>,
                  c: PluginClass, j: nat, visited: set<Ref>)
    requires Consistent(objects, pluginMap) && c in pluginMap && c !in done && j < |pluginMap[c].keys|
    requires VisitedUpTo(objects, pluginMap, done, c, j, visited)
    ensures var m := pluginMap[c];
      var p := m.entries[m.keys[j]];
      && EntryAgrees(objects, c, m.keys[j], p)
      && IsRegistered(objects, pluginMap, p)
      && p !in visited
      && VisitedUpTo(objects, pluginMap, done, c, j + 1, visited + {p})
  {
    var m := pluginMap[c];
    assert m.keys[..j + 1] == m.keys[..j] + [m.keys[j]];
    var p := m.entries[m.keys[j]];
    assert EntryAgrees(objects, c, m.keys[j], p);
  }

  /** A class walked to its end counts as done. */
  lemma VisitClassDone(objects: Objects, pluginMap: PluginMap, done: set<PluginClass>,
                       c: PluginClass, visited: set<Ref>)
    requires c in pluginMap && pluginMap[c].Valid()
    requires VisitedUpTo(objects, pluginMap, done, c, |pluginMap[c].keys|, visited)
    ensures VisitedClasses(objects, pluginMap, done + {c}, visited)
  {
    assert pluginMap[c].keys[..|pluginMap[c].keys|] == pluginMap[c].keys;
  }

  /** Once every class is done, the walk has visited exactly the registered
      instances. */
  lemma VisitAllDone(objects: Objects, pluginMap: PluginMap, visited: set<Ref>)
    requires VisitedClasses(objects, pluginMap, pluginMap.Keys, visited)
    ensures forall q :: q in visited <==> IsRegistered(objects, pluginMap, q)
  {
  }

  /** The selected-item list after `_updateItemSelection`: every registered selected
      item, each once. */
  ghost predicate IsSelectionList(objects: Objects, pluginMap: PluginMap, list: seq<Ref>) {
    && Distinct(list)
    && (forall q :: q in list <==>
          q in objects && IsRegistered(objects, pluginMap, q) && objects[q].Item? && objects[q].selected)
  }

  // ----------------------------------------------------------------- registry

  /** Filing a new instance under its own free name keeps the registry consistent,
      registers it, and keeps every previously registered instance registered. */
  lemma RegisterKeepsConsistent(objects: Objects, pluginMap: PluginMap, r: Ref)
    requires Consistent(objects, pluginMap)
    requires r in objects && objects[r].name !in pluginMap[objects[r].cls].entries
    ensures var c := objects[r].cls;
      var pm := pluginMap[c := Put(pluginMap[c], objects[r].name, r)];
      && Consistent(objects, pm)
      && IsRegistered(objects, pm, r)
      && (forall q :: IsRegistered(objects, pluginMap, q) ==> IsRegistered(objects, pm, q))
  {
  }

  /** Dropping the entry filed under `k` keeps the registry consistent and
      unregisters exactly the instance that was filed there. */
  lemma RemoveKeepsConsistent(objects: Objects, pluginMap: PluginMap, c: PluginClass, k: string)
    requires Consistent(objects, pluginMap) && c in pluginMap
    ensures var pm := pluginMap[c := Remove(pluginMap[c], k)];
      && Consistent(objects, pm)
      && (forall q :: IsRegistered(objects, pm, q) <==>
            IsRegistered(objects, pluginMap, q) && !(k in pluginMap[c].entries && pluginMap[c].entries[k] == q))
  {
  }

  /** Removal goes by name: removing an instance that was never filed (one whose
      registration was refused because its name was taken) unregisters the
      instance that holds that name. */
  lemma RemovingNamesakeUnregisters(objects: Objects, pluginMap: PluginMap, p: Ref, q: Ref)
    requires Consistent(objects, pluginMap) && IsRegistered(objects, pluginMap, p)
    requires q in objects && q != p && objects[q].cls == objects[p].cls && objects[q].name == objects[p].name
    ensures !IsRegistered(objects, pluginMap, q)
    ensures var c := objects[q].cls;
      var pm := pluginMap[c := Remove(pluginMap[c], objects[q].name)];
      Consistent(objects, pm) && !IsRegistered(objects, pm, p)
  {
    RemoveKeepsConsistent(objects, pluginMap, objects[q].cls, objects[q].name);
  }

  /** The registry after `renamePlugin(item, newName)` succeeds with a name change:
      the entry under the item's old name is removed and the item is filed under
      `newName`, at the end of the order. */
  function RenamedMap(pluginMap: PluginMap, c: PluginClass, oldName: string, newName: string, r: Ref): PluginMap
    requires c in pluginMap && pluginMap[c].Valid()
  {
    pluginMap[c := Put(Remove(pluginMap[c], oldName), newName, r)]
  }

  /** Renaming to a free name keeps the registry consistent, registers the item
      under its new name, and keeps every other registered instance registered,
      except the one filed under the item's old name when that is not the item. */
  lemma RenameKeepsConsistent(objects: Objects, pluginMap: PluginMap, r: Ref, newName: string)
    requires Consistent(objects, pluginMap)
    requires r in objects && newName !in pluginMap[objects[r].cls].entries
    requires newName != objects[r].name
    ensures var c := objects[r].cls;
      var oldName := objects[r].name;
      var objects' := objects[r := objects[r].(name := newName)];
      var pm := RenamedMap(pluginMap, c, oldName, newName, r);
      && Consistent(objects', pm)
      && IsRegistered(objects', pm, r)
      && (forall q :: q != r && IsRegistered(objects, pluginMap, q) ==>
            (IsRegistered(objects', pm, q) <==> !(objects[q].cls == c && objects[q].name == oldName)))
  {
    RenamedEntriesAgree(objects, pluginMap, r, newName);
    var c := objects[r].cls;
    var oldName := objects[r].name;
    var objects' := objects[r := objects[r].(name := newName)];
    var pm := RenamedMap(pluginMap, c, oldName, newName, r);
    forall q | q != r && IsRegistered(objects, pluginMap, q)
      ensures IsRegistered(objects', pm, q) <==> !(objects[q].cls == c && objects[q].name == oldName)
    {
      assert objects'[q] == objects[q];
      if objects[q].cls == c {
        assert objects[q].name != newName;
      }
    }
  }

  lemma {:induction false} RenamedEntriesAgree(objects: Objects, pluginMap: PluginMap, r: Ref, newName: string)
    requires Consistent(objects, pluginMap)
    requires r in objects && newName !in pluginMap[objects[r].cls].entries
    requires newName != objects[r].name
    ensures var c := objects[r].cls;
      var objects' := objects[r := objects[r].(name := newName)];
      var pm := RenamedMap(pluginMap, c, objects[r].name, newName, r);
      Consistent(objects', pm)
  {
    var c := objects[r].cls;
    var oldName := objects[r].name;
    var objects' := objects[r := objects[r].(name := newName)];
    var removed := Remove(pluginMap[c], oldName);
    var pm := RenamedMap(pluginMap, c, oldName, newName, r);
    assert pm[c].entries == removed.entries[newName := r];
    forall d, k | d in pm && k in pm[d].entries
      ensures EntryAgrees(objects', d, k, pm[d].entries[k])
    {
      if d != c {
        assert pm[d] == pluginMap[d];
        assert EntryAgrees(objects, d, k, pluginMap[d].entries[k]);
      } else if k != newName {
        assert k in pluginMap[c].entries && k != oldName;
        var q := pluginMap[c].entries[k];
        assert EntryAgrees(objects, c, k, q);
        assert q != r;
      }
    }
    forall q | q in objects'
      ensures objects'[q].cls in pm && WellKinded(objects'[q])
    {
      assert objects'[q].cls == objects[q].cls;
    }
  }
}
