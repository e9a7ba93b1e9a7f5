/** `GrxPluginManager`: the plugin registry, the item and view factory, the
    selection tracker, the mode switch and the polling tick. */
module Manager {
  import opened JavaLang
  import opened JavaText
  import opened OrderedMaps
  import opened Plugins
  import opened Registry
  import opened Lifecycle
  import opened Views

  /** The item registry after `registerPlugin(cls)` for a plugin class: an empty
      collection is added the first time, an existing one is kept. */
  function WithClass(pluginMap: PluginMap, cls: PluginClass): (pm: PluginMap)
    ensures cls in pm && pm.Keys == pluginMap.Keys + {cls}
    ensures forall c :: c in pluginMap ==> pm[c] == pluginMap[c]
    ensures cls !in pluginMap ==> pm[cls] == Empty()
  {
    if cls in pluginMap then pluginMap else pluginMap[cls := Empty()]
  }

  /** Registering a class with an empty collection keeps the registry consistent
      and registers no object. */
  lemma WithClassKeepsConsistent(objects: Objects, pluginMap: PluginMap, cls: PluginClass)
    requires Consistent(objects, pluginMap) && cls.isPlugin
    ensures Consistent(objects, WithClass(pluginMap, cls))
    ensures forall q :: IsRegistered(objects, WithClass(pluginMap, cls), q) <==> IsRegistered(objects, pluginMap, q)
  {
  }

  /** The focus bookkeeping agrees: the focused item is an item, and an item's
      focused flag is set exactly when it is the focused item. */
  ghost predicate FocusAgrees(objects: Objects, focusedItem: Option<Ref>) {
    && (focusedItem.Some? ==> focusedItem.value in objects && objects[focusedItem.value].Item?)
    && (forall r :: r in objects && objects[r].Item? ==> (objects[r].focused <==> focusedItem == Some(r)))
  }

  /** The invariant of the manager's state: the registry is consistent, the
      metadata covers exactly the registered classes, every allocated reference is
      below the next one, and every held reference points at the right kind of
      object. */
  ghost predicate ManagerInv(objects: Objects, nextRef: Ref, pluginMap: PluginMap, pinfoMap: map<PluginClass, PluginInfo>,
                             views: seq<Ref>, items: seq<Ref>, focusedItem: Option<Ref>, currentMode: Option<Ref>) {
    && Consistent(objects, pluginMap)
    && pinfoMap.Keys == pluginMap.Keys
    && (forall r :: r in objects ==> r < nextRef)
    && RefsAgree(objects, views, items, focusedItem, currentMode)
  }

  /** Renaming and refiling an object keeps the manager's invariant. */
  lemma RefileKeepsInv(objects: Objects, nextRef: Ref, pluginMap: PluginMap, pinfoMap: map<PluginClass, PluginInfo>,
                       views: seq<Ref>, items: seq<Ref>, focusedItem: Option<Ref>, currentMode: Option<Ref>,
                       r: Ref, newName: string)
    requires ManagerInv(objects, nextRef, pluginMap, pinfoMap, views, items, focusedItem, currentMode)
    requires r in objects && newName !in pluginMap[objects[r].cls].entries && newName != objects[r].name
    ensures var c := objects[r].cls;
      var pm := RenamedMap(pluginMap, c, objects[r].name, newName, r);
      var o := objects[r := objects[r].(name := newName)];
      && ManagerInv(o, nextRef, pm, pinfoMap, views, items, focusedItem, currentMode)
      && IsRegistered(o, pm, r)
  {
    var o := objects[r := objects[r].(name := newName)];
    RenamedEntriesAgree(objects, pluginMap, r, newName);
    NameOrNewKeepsRefs(objects, o, views, items, focusedItem, currentMode);
  }

  /** Stepping or stopping views, which changes no item and keeps each view a
      view under its class and name, keeps the manager's invariant. */
  lemma ViewStepKeepsInv(objects: Objects, o: Objects, nextRef: Ref, pluginMap: PluginMap,
                         pinfoMap: map<PluginClass, PluginInfo>, views: seq<Ref>, items: seq<Ref>,
                         focusedItem: Option<Ref>, currentMode: Option<Ref>)
    requires ManagerInv(objects, nextRef, pluginMap, pinfoMap, views, items, focusedItem, currentMode)
    requires o.Keys == objects.Keys
    requires forall r :: r in objects && objects[r].Item? ==> o[r] == objects[r]
    requires forall r :: r in objects && objects[r].View? ==>
      o[r].View? && o[r].cls == objects[r].cls && o[r].name == objects[r].name
    ensures ManagerInv(o, nextRef, pluginMap, pinfoMap, views, items, focusedItem, currentMode)
  {
    assert SameShape(objects, o);
    SameShapeKeepsConsistent(objects, o, pluginMap);
    SameShapeKeepsRefs(objects, o, views, items, focusedItem, currentMode);
  }

  /** The notices one tick sends, in order: the new selection, a list change, the
      focused item and a property change, each to every listed view and each only
      when its flag was raised. */
  function PendingNotices(sent: seq<Notice>, views: seq<Ref>, selection: bool, list: bool, focus: bool,
                          property: bool, items: seq<Ref>, focusedItem: Option<Ref>): seq<Notice>
  {
    var a := if selection then sent + Fanout(views, SelectionChanged(items)) else sent;
    var b := if list then a + Fanout(views, ListChanged) else a;
    var c := if focus then b + Fanout(views, FocusChanged(focusedItem)) else b;
    if property then c + Fanout(views, PropertyChanged) else c
  }

  /** The references the manager holds point at objects of the right kind: the
      view list at views, the selected-item list, the focused item and the
      current mode at items. */
  ghost predicate RefsAgree(objects: Objects, views: seq<Ref>, items: seq<Ref>, focusedItem: Option<Ref>, currentMode: Option<Ref>) {
    KindsAgree(objects, views, items, currentMode) && FocusAgrees(objects, focusedItem)
  }

  /** The view list refers to views; the selected-item list and the current mode
      refer to items. */
  ghost predicate KindsAgree(objects: Objects, views: seq<Ref>, items: seq<Ref>, currentMode: Option<Ref>) {
    && AllViews(objects, views)
    && (forall i :: 0 <= i < |items| ==> items[i] in objects && objects[items[i]].Item?)
    && (currentMode.Some? ==> currentMode.value in objects && objects[currentMode.value].Item?)
  }

  lemma SameShapeKeepsKinds(o: Objects, o': Objects, views: seq<Ref>, items: seq<Ref>, currentMode: Option<Ref>)
    requires KindsAgree(o, views, items, currentMode)
    requires o.Keys <= o'.Keys && forall q :: q in o ==> (o'[q].Item? <==> o[q].Item?)
    ensures KindsAgree(o', views, items, currentMode)
  {
    assert forall i :: 0 <= i < |views| ==> views[i] in o && o[views[i]].View?;
  }

  /** A change of selection or view state keeps every held reference pointing at
      the right kind of object. */
  lemma SameShapeKeepsRefs(o: Objects, o': Objects, views: seq<Ref>, items: seq<Ref>, focusedItem: Option<Ref>, currentMode: Option<Ref>)
    requires RefsAgree(o, views, items, focusedItem, currentMode) && SameShape(o, o')
    requires forall q :: q in o && o[q].Item? ==> o'[q].focused == o[q].focused
    ensures RefsAgree(o', views, items, focusedItem, currentMode)
  {
    SameShapeKeepsKinds(o, o', views, items, currentMode);
  }

  /** Renaming an object, or allocating a new unfocused one, changes no kind and no
      focus. */
  lemma NameOrNewKeepsRefs(o: Objects, o': Objects, views: seq<Ref>, items: seq<Ref>, focusedItem: Option<Ref>, currentMode: Option<Ref>)
    requires RefsAgree(o, views, items, focusedItem, currentMode)
    requires o.Keys <= o'.Keys
    requires forall q :: q in o ==> (o'[q].Item? <==> o[q].Item?) && (o[q].Item? ==> o'[q].focused == o[q].focused)
    requires forall q :: q in o' && q !in o ==> o'[q].Item? ==> !o'[q].focused
    ensures RefsAgree(o', views, items, focusedItem, currentMode)
  {
    SameShapeKeepsKinds(o, o', views, items, currentMode);
  }

  /** `name` is `base + i` for the least `i >= 0` such that `base + i` is not a key of
      `entries`. */
  ghost predicate IsLeastFreeName(entries: map<string, Ref>, base: string, name: string) {
    exists i: nat ::
      && name == base + NatToString(i)
      && name !in entries
      && forall k: nat :: k < i ==> base + NatToString(k) in entries
  }

  /** In a class with no instances the generated name ends in `0`. */
  lemma FirstFreeName(entries: map<string, Ref>, base: string, name: string)
    requires IsLeastFreeName(entries, base, name) && base + "0" !in entries
    ensures name == base + "0"
  {
    var i: nat :| name == base + NatToString(i) && name !in entries
      && forall k: nat :: k < i ==> base + NatToString(k) in entries;
    assert NatToString(0) == "0";
    assert i == 0;
  }

  /** When only the name ending in `0` is taken, the generated name ends in `1`. */
  lemma SecondFreeName(entries: map<string, Ref>, base: string, name: string)
    requires IsLeastFreeName(entries, base, name) && entries.Keys == {base + "0"}
    ensures name == base + "1"
  {
    var i: nat :| name == base + NatToString(i) && name !in entries
      && forall k: nat :: k < i ==> base + NatToString(k) in entries;
    assert NatToString(0) == "0" && NatToString(1) == "1";
    assert base + "1" != base + "0" by {
      assert (base + "1")[|base|] != (base + "0")[|base|];
    }
    assert i == 1;
  }

  /** The stem for a class titled `C` is `newc`: the title is lower-cased. */
  lemma DefaultNameBaseOfC()
    ensures DefaultNameBase("C") == "newc"
  {
    assert ToLower("newC") == "newc" by {
      assert forall i :: 0 <= i < 4 ==> ToLower("newC")[i] == "newc"[i];
    }
  }

  class PluginManager {
    /** Every plugin object the manager has allocated, by reference. */
    var objects: Objects
    /** The next reference to allocate; all allocated ones are below it. */
    var nextRef: Ref
    /** `pluginMap_` and `pinfoMap_`. */
    var pluginMap: PluginMap
    var pinfoMap: map<PluginClass, PluginInfo>
    /** `selectedItemList_` and `selectedViewList_`. */
    var selectedItemList: seq<Ref>
    var selectedViewList: seq<Ref>
    /** The four dirty flags. */
    var itemSelectionChanged: bool
    var itemListChanged: bool
    var focusedItemChanged: bool
    var itemPropertyChanged: bool
    /** `currentMode_` and `focusedItem_`. */
    var currentMode: Option<Ref>
    var focusedItem: Option<Ref>
    /** Timing of the last tick and its running extremes, in milliseconds. */
    var now: int
    var max: int
    var min: int
    /** `homePath_`. */
    const homePath: string
    /** The notifications delivered to views so far, in delivery order. */
    var notices: seq<Notice>

    ghost predicate Valid()
      reads this`objects, this`nextRef, this`pluginMap, this`pinfoMap, this`selectedViewList,
        this`selectedItemList, this`focusedItem, this`currentMode
    {
      ManagerInv(objects, nextRef, pluginMap, pinfoMap, selectedViewList, selectedItemList, focusedItem, currentMode)
    }

    /** The part of the constructor that sets up the registry: nothing is allocated,
        no flag is raised, and the mode class is registered. */
    constructor (home: string, modeInfoClass: PluginClass)
      requires modeInfoClass.isPlugin
      ensures Valid()
      ensures homePath == home && objects == map[] && notices == []
      ensures pluginMap == map[modeInfoClass := Empty()]
      ensures pinfoMap == map[modeInfoClass := NewPluginInfo(modeInfoClass, home)]
      ensures !itemSelectionChanged && !itemListChanged && !focusedItemChanged && !itemPropertyChanged
      ensures currentMode.None? && focusedItem.None?
      ensures selectedItemList == [] && selectedViewList == []
    {
      objects := map[];
      nextRef := 0;
      homePath := home;
      pluginMap := map[modeInfoClass := Empty()];
      pinfoMap := map[modeInfoClass := NewPluginInfo(modeInfoClass, home)];
      selectedItemList := [];
      selectedViewList := [];
      itemSelectionChanged, itemListChanged, focusedItemChanged, itemPropertyChanged := false, false, false, false;
      currentMode, focusedItem := None, None;
      now, max, min := 0, 0, 0;
      notices := [];
    }

    // ------------------------------------------------------------ registry

    /** `registerPlugin(Class)`: a class that is not a plugin registers nothing and
        yields null; a plugin class is registered once, with fresh metadata, and a
        second registration keeps its collection and its metadata. */
    method RegisterPlugin(cls: PluginClass) returns (r: Option<PluginClass>)
      requires Valid()
      modifies this`pluginMap, this`pinfoMap
      ensures Valid()
      ensures r == if cls.isPlugin then Some(cls) else None
      ensures cls.isPlugin ==> pluginMap == WithClass(old(pluginMap), cls)
      ensures cls.isPlugin && cls !in old(pluginMap) ==>
        pinfoMap == old(pinfoMap)[cls := NewPluginInfo(cls, homePath)]
      ensures !cls.isPlugin || cls in old(pluginMap) ==>
        pluginMap == old(pluginMap) && pinfoMap == old(pinfoMap)
    {
      if cls.isPlugin {
        if cls !in pluginMap {
          pluginMap := pluginMap[cls := Empty()];
          pinfoMap := pinfoMap[cls := NewPluginInfo(cls, homePath)];
        }
        return Some(cls);
      }
      return None;
    }

    /** `registerPlugin(Element)`, after the class has been loaded: registers the
        class, then sets its visibility from the element's `visible` attribute
        (true when the attribute is absent). */
    method RegisterPluginWithVisibility(cls: PluginClass, visibleAttribute: Option<bool>)
      returns (r: Option<PluginClass>)
      requires Valid()
      modifies this`pluginMap, this`pinfoMap
      ensures Valid()
      ensures r == if cls.isPlugin then Some(cls) else None
      ensures cls.isPlugin ==> pluginMap == WithClass(old(pluginMap), cls)
      ensures cls.isPlugin ==>
        var info := if cls in old(pinfoMap) then old(pinfoMap)[cls] else NewPluginInfo(cls, homePath);
        var visible := match visibleAttribute case Some(b) => b case None => true;
        pinfoMap == old(pinfoMap)[cls := info.(visible := visible)]
      ensures !cls.isPlugin ==> pluginMap == old(pluginMap) && pinfoMap == old(pinfoMap)
    {
      r := RegisterPlugin(cls);
      if r.Some? {
        var visible := match visibleAttribute case Some(b) => b case None => true;
        pinfoMap := pinfoMap[cls := pinfoMap[cls].(visible := visible)];
      }
    }

    /** `getItemTitle(cls)`. */
    function GetItemTitle(cls: PluginClass): string
      reads this
      requires cls in pinfoMap
    {
      pinfoMap[cls].title
    }

    /** `registerPluginInstance(instance)`: refuses an instance whose name is already
        filed in its class collection and changes nothing; otherwise files it
        under its name and leaves every other entry as it was. */
    method RegisterPluginInstance(r: Ref) returns (ok: bool)
      requires Valid() && r in objects
      modifies this`pluginMap
      ensures Valid()
      ensures var c := objects[r].cls;
        && ok == (objects[r].name !in old(pluginMap)[c].entries)
        && pluginMap == if ok then old(pluginMap)[c := Put(old(pluginMap)[c], objects[r].name, r)] else old(pluginMap)
      ensures ok ==> IsRegistered(objects, pluginMap, r)
      ensures forall q :: IsRegistered(objects, old(pluginMap), q) ==> IsRegistered(objects, pluginMap, q)
    {
      var c := objects[r].cls;
      var name := objects[r].name;
      if name in pluginMap[c].entries {
        return false;
      }
      RegisterKeepsConsistent(objects, pluginMap, r);
      pluginMap := pluginMap[c := Put(pluginMap[c], name, r)];
      return true;
    }

    /** `getItem(cls, name)`: the first instance of the class collection, in order,
        whose name is `name` (any first instance when `name` is null). Under the
        registry's consistency that is exactly the instance filed under `name`. */
    method GetItem(cls: PluginClass, name: Option<string>) returns (r: Option<Ref>)
      requires Valid() && cls in pluginMap
      ensures var m := pluginMap[cls];
        name.Some? ==> (r.Some? <==> name.value in m.entries) && (r.Some? ==> r.value == m.entries[name.value])
      ensures var m := pluginMap[cls];
        name.None? ==> (r.Some? <==> |m.keys| > 0) && (r.Some? ==> r.value == m.entries[m.keys[0]])
    {
      var m := pluginMap[cls];
      var i := 0;
      while i < |m.keys|
        invariant 0 <= i <= |m.keys|
        invariant name.None? ==> i == 0
        invariant name.Some? ==> name.value !in m.keys[..i]
      {
        var item := m.entries[m.keys[i]];
        assert EntryAgrees(objects, cls, m.keys[i], item);
        if name.None? || objects[item].name == name.value {
          return Some(item);
        }
        assert m.keys[..i + 1] == m.keys[..i] + [m.keys[i]];
        i := i + 1;
      }
      assert m.keys[..i] == m.keys;
      return None;
    }

    /** The name search of `createItem(cls, null)`: tries `base + 0`, `base + 1`, ...
        until `getItem` finds nothing. It ends because the collection is finite. */
    method FindFreeName(cls: PluginClass, base: string) returns (name: string)
      requires Valid() && cls in pluginMap
      ensures IsLeastFreeName(pluginMap[cls].entries, base, name)
    {
      var entries := pluginMap[cls].entries;
      var i: nat := 0;
      ghost var tried: map<string, nat> := map[];
      while true
        invariant TriedNames(tried, entries, base, i)
        invariant i <= |entries.Keys|
        decreases |entries.Keys| - i
      {
        name := base + NatToString(i);
        var found := GetItem(cls, Some(name));
        if found.None? {
          assert name !in entries;
          return;
        }
        tried := TryAnother(tried, entries, base, i);
        i := i + 1;
      }
    }

    // ----------------------------------------------------------- selection

    /** `setSelectedItem(item, select)`: null is ignored; otherwise the item ends
        in the requested state, selecting an exclusive item unselects every other
        instance of its class collection, and the selection flag is raised when
        the item's state changes. */
    method SetSelectedItem(item: Option<Ref>, select: bool)
      requires Valid()
      requires item.Some? ==> item.value in objects && objects[item.value].Item?
      modifies this`objects, this`itemSelectionChanged
      ensures Valid()
      ensures item.None? ==> objects == old(objects) && itemSelectionChanged == old(itemSelectionChanged)
      ensures item.Some? ==>
        && objects == SelectItem(old(objects), pluginMap, item.value, select)
        && itemSelectionChanged == (old(itemSelectionChanged) || select != old(objects)[item.value].selected)
      ensures item.Some? ==> objects[item.value] == old(objects)[item.value].(selected := select)
      ensures SameShape(old(objects), objects)
      ensures forall q :: IsRegistered(objects, pluginMap, q) <==> IsRegistered(old(objects), pluginMap, q)
    {
      if item.None? {
        return;
      }
      var r := item.value;
      if select != objects[r].selected {
        ReselectItems();
      }
      var o := SelectInCollection(objects, pluginMap, r, select);
      SelectItemShape(objects, pluginMap, r, select);
      SameShapeKeepsConsistent(objects, o, pluginMap);
      SameShapeKeepsRefs(objects, o, selectedViewList, selectedItemList, focusedItem, currentMode);
      objects := o;
    }

    /** `reselectItems()`: asks the next tick to rebuild the selected-item list. */
    method ReselectItems()
      modifies this`itemSelectionChanged
      ensures itemSelectionChanged
    {
      itemSelectionChanged := true;
    }

    /** `clearItemSelection()`: every registered item is unselected (objects that are
        not filed in the registry keep their state), and the selection flag is
        raised when some registered item was selected. */
    method ClearItemSelection()
      requires Valid()
      modifies this`objects, this`itemSelectionChanged
      ensures Valid()
      ensures objects == ClearedSelection(old(objects), pluginMap)
      ensures itemSelectionChanged == (old(itemSelectionChanged) || SomeRegisteredSelected(old(objects), pluginMap))
    {
      var todo := pluginMap.Keys;
      ghost var start := objects;
      ghost var visited: set<Ref> := {};
      while todo != {}
        invariant Valid()
        invariant todo <= pluginMap.Keys
        invariant VisitedClasses(start, pluginMap, pluginMap.Keys - todo, visited)
        invariant objects == UnselectedIn(start, visited)
        invariant itemSelectionChanged == (old(itemSelectionChanged) || SomeSelectedIn(start, visited))
        decreases todo
      {
        var c :| c in todo;
        var m := pluginMap[c];
        var j := 0;
        while j < |m.keys|
          invariant 0 <= j <= |m.keys|
          invariant Valid()
          invariant VisitedUpTo(start, pluginMap, pluginMap.Keys - todo, c, j, visited)
          invariant objects == UnselectedIn(start, visited)
          invariant itemSelectionChanged == (old(itemSelectionChanged) || SomeSelectedIn(start, visited))
        {
          var p := m.entries[m.keys[j]];
          VisitNext(start, pluginMap, pluginMap.Keys - todo, c, j, visited);
          UnselectOneMore(start, visited, p);
          if objects[p].Item? {
            SetSelectedItem(Some(p), false);
          }
          visited := visited + {p};
          j := j + 1;
        }
        VisitClassDone(start, pluginMap, pluginMap.Keys - todo, c, visited);
        assert pluginMap.Keys - todo + {c} == pluginMap.Keys - (todo - {c});
        todo := todo - {c};
      }
      VisitAllDone(start, pluginMap, visited);
      ClearedIsUnselectedIn(start, pluginMap, visited);
    }

    /** `_updateItemSelection()`: clears the selection flag, rebuilds the selected-item
        list as every registered selected item, each once, refreshes the view list
        and tells each view the new selection. The order of classes is that of a
        `HashMap` and is not fixed here. */
    method UpdateItemSelection(wb: Workbench)
      requires Valid()
      modifies this`itemSelectionChanged, this`selectedItemList, this`selectedViewList, this`notices
      ensures Valid()
      ensures !itemSelectionChanged
      ensures IsSelectionList(objects, pluginMap, selectedItemList)
      ensures selectedViewList == OpenViews(objects, wb)
      ensures notices == old(notices) + Fanout(selectedViewList, SelectionChanged(selectedItemList))
    {
      itemSelectionChanged := false;
      selectedItemList := SelectedItems(objects, pluginMap);
      UpdateViewList(wb);
      Deliver(SelectionChanged(selectedItemList));
    }

    /** `updateViewList()`: the open GrxUI views of the workbench page, in page
        order, or none when the perspective is not shown. */
    method UpdateViewList(wb: Workbench)
      requires Valid()
      modifies this`selectedViewList
      ensures Valid()
      ensures selectedViewList == OpenViews(objects, wb)
    {
      var vs: seq<Ref> := [];
      if wb.grxPerspectiveShown {
        vs := CollectViews(objects, wb.viewRefs);
      }
      ViewListKeepsInv(objects, nextRef, pluginMap, pinfoMap, selectedViewList, vs, selectedItemList, focusedItem, currentMode);
      selectedViewList := vs;
    }

    /** One notification pass: `e` delivered to every view of the view list, in
        order. */
    method Deliver(e: Event)
      modifies this`notices
      ensures notices == old(notices) + Fanout(selectedViewList, e)
    {
      var i := 0;
      while i < |selectedViewList|
        invariant 0 <= i <= |selectedViewList|
        invariant notices == old(notices) + Fanout(selectedViewList[..i], e)
        modifies this`notices
      {
        notices := notices + [Notice(selectedViewList[i], e)];
        i := i + 1;
        assert Fanout(selectedViewList[..i], e) == Fanout(selectedViewList[..i - 1], e) + [Notice(selectedViewList[i - 1], e)];
      }
      assert selectedViewList[..i] == selectedViewList;
    }

    /** `focusedItem(item)`: hands the focus from the focused item to `item` and
        raises the focus flag; nothing happens when `item` already has the focus.
        Handing the focus to null unfocuses the old item and then throws. */
    method FocusItem(item: Option<Ref>) returns (c: Completion<()>)
      requires Valid()
      requires item.Some? ==> item.value in objects && objects[item.value].Item?
      modifies this`objects, this`focusedItem, this`focusedItemChanged
      ensures Valid()
      ensures old(focusedItem) == item ==> c.Normal? && unchanged(this)
      ensures old(focusedItem) != item ==>
        var unfocused := Unfocused(old(objects), old(focusedItem));
        && focusedItem == item
        && (item.Some? ==>
              && c.Normal?
              && objects == unfocused[item.value := unfocused[item.value].(focused := true)]
              && focusedItemChanged)
        && (item.None? ==>
              && c == Thrown(NullPointerException)
              && objects == unfocused
              && focusedItemChanged == old(focusedItemChanged))
    {
      if focusedItem != item {
        FocusHandover(objects, pluginMap, selectedViewList, selectedItemList, focusedItem, currentMode, item);
        var u := Unfocused(objects, focusedItem);
        if item.None? {
          objects, focusedItem := u, None;
          return Thrown(NullPointerException);
        }
        var r := item.value;
        objects, focusedItem := u[r := u[r].(focused := true)], item;
        focusedItemChanged := true;
      }
      return Normal(());
    }

    // ------------------------------------------------------------- creation

    /** `createPlugin(cls, name)`: registers the class (null when it is not a
        plugin), lets the loader construct an instance (null when it fails, which
        `instantiated` says) and files it under its name. The instance is returned
        even when an instance of that name was already filed and it was not. */
    method CreatePlugin(cls: PluginClass, name: string, instantiated: bool) returns (r: Option<Ref>)
      requires Valid()
      modifies this`pluginMap, this`pinfoMap, this`objects, this`nextRef
      ensures Valid()
      ensures !cls.isPlugin ==> r.None? && unchanged(this)
      ensures cls.isPlugin ==>
        && pluginMap.Keys == old(pluginMap).Keys + {cls}
        && (cls !in old(pinfoMap) ==> pinfoMap == old(pinfoMap)[cls := NewPluginInfo(cls, homePath)])
        && (cls in old(pinfoMap) ==> pinfoMap == old(pinfoMap))
      ensures cls.isPlugin && !instantiated ==>
        r.None? && objects == old(objects) && pluginMap == WithClass(old(pluginMap), cls)
      ensures cls.isPlugin && instantiated ==>
        var before := WithClass(old(pluginMap), cls)[cls];
        && r == Some(old(nextRef))
        && objects == old(objects)[old(nextRef) := NewPlugin(cls, name)]
        && nextRef == old(nextRef) + 1
        && (name !in before.entries ==> pluginMap == WithClass(old(pluginMap), cls)[cls := Put(before, name, r.value)])
        && (name in before.entries ==> pluginMap == WithClass(old(pluginMap), cls))
        && (IsRegistered(objects, pluginMap, r.value) <==> name !in before.entries)
      ensures forall q :: IsRegistered(old(objects), old(pluginMap), q) ==> IsRegistered(objects, pluginMap, q)
    {
      var registered := RegisterPlugin(cls);
      if registered.None? {
        return None;
      }
      if !instantiated {
        return None;
      }
      var n := Allocate(cls, name);
      var ok := RegisterPluginInstance(n);
      return Some(n);
    }

    /** What the plugin loader does for the manager: a new object of a registered
        class, under a fresh reference, filed nowhere yet. */
    method Allocate(cls: PluginClass, name: string) returns (n: Ref)
      requires Valid() && cls in pluginMap
      modifies this`objects, this`nextRef
      ensures Valid()
      ensures n == old(nextRef) && n !in old(objects) && nextRef == n + 1
      ensures objects == old(objects)[n := NewPlugin(cls, name)]
      ensures forall q :: IsRegistered(objects, pluginMap, q) <==> IsRegistered(old(objects), pluginMap, q)
    {
      n := nextRef;
      var p := NewPlugin(cls, name);
      AddObjectKeepsConsistent(objects, pluginMap, n, p);
      NameOrNewKeepsRefs(objects, objects[n := p], selectedViewList, selectedItemList, focusedItem, currentMode);
      objects := objects[n := p];
      nextRef := nextRef + 1;
    }

    /** `_addItemNode(item)`: raises the selection flag when the item is selected,
        and always the list flag. */
    method AddItemNode(r: Ref)
      requires r in objects && objects[r].Item?
      modifies this`itemSelectionChanged, this`itemListChanged
      ensures itemSelectionChanged == (old(itemSelectionChanged) || objects[r].selected)
      ensures itemListChanged
    {
      if objects[r].selected {
        itemSelectionChanged := true;
      }
      itemListChanged := true;
    }

    /** What `createItem` and `loadItem` do with a new item: select it and announce
        it through `_addItemNode`, which raises both flags. */
    method Announce(r: Ref)
      requires Valid() && r in objects && objects[r].Item?
      modifies this`objects, this`itemSelectionChanged, this`itemListChanged
      ensures Valid()
      ensures objects == SelectItem(old(objects), pluginMap, r, true)
      ensures objects[r] == old(objects)[r].(selected := true)
      ensures SameShape(old(objects), objects)
      ensures forall q :: IsRegistered(objects, pluginMap, q) <==> IsRegistered(old(objects), pluginMap, q)
      ensures objects[r].exclusive ==>
        forall q :: q in objects && q != r && IsRegistered(objects, pluginMap, q) && objects[q].cls == objects[r].cls ==>
          !objects[q].selected
      ensures itemSelectionChanged && itemListChanged
    {
      if objects[r].exclusive {
        SelectItemExclusive(objects, pluginMap, r);
      }
      SetSelectedItem(Some(r), true);
      AddItemNode(r);
    }

    /** `createItem(cls, name)`. Without a name the item is called after the class
        title, lower-cased and without spaces, with the least numeric suffix not yet
        in use; asking so for a class never registered throws at the title lookup.
        A new item is selected (unselecting the rest of an exclusive class) and
        both the selection and the list flags are raised. */
    method CreateItem(cls: PluginClass, name: Option<string>, instantiated: bool)
      returns (c: Completion<Option<Ref>>)
      requires Valid() && cls.kind == ItemKind
      modifies this`pluginMap, this`pinfoMap, this`objects, this`nextRef,
        this`itemSelectionChanged, this`itemListChanged
      ensures Valid()
      ensures c.Thrown? <==> name.None? && cls !in old(pinfoMap)
      ensures c.Thrown? ==> c.exception == NullPointerException && unchanged(this)
      ensures c.Normal? ==> (c.value.Some? <==> cls.isPlugin && instantiated)
      ensures c.Normal? && c.value.None? ==>
        objects == old(objects) && itemSelectionChanged == old(itemSelectionChanged) &&
        itemListChanged == old(itemListChanged)
      ensures c.Normal? && c.value.Some? ==>
        var r := c.value.value;
        && r == old(nextRef) && r !in old(objects)
        && r in objects && objects[r].Item? && objects[r].cls == cls && objects[r].selected
        && (name.Some? ==> objects[r].name == name.value)
        && (name.None? ==>
              && IsLeastFreeName(old(pluginMap)[cls].entries, DefaultNameBase(old(pinfoMap)[cls].title), objects[r].name)
              && IsRegistered(objects, pluginMap, r))
        && (cls.exclusive ==>
              forall q :: q in objects && q != r && IsRegistered(objects, pluginMap, q) && objects[q].Item? && objects[q].cls == cls ==>
                !objects[q].selected)
        && itemSelectionChanged && itemListChanged
      ensures c.Normal? && c.value.Some? ==>
        Filed(old(objects), old(pluginMap), objects, pluginMap, cls, c.value.value)
    {
      var n: string;
      if name.None? {
        if cls !in pinfoMap {
          return Thrown(NullPointerException);
        }
        n := FindFreeName(cls, DefaultNameBase(GetItemTitle(cls)));
      } else {
        n := name.value;
      }
      var r := CreateAnnounced(cls, n, instantiated);
      return Normal(r);
    }

    /** `loadItem(cls, name, url)`. `file` is the name of the file the URL leads to,
        or nothing when the URL does not expand or does not lead to a file; then
        null is returned and nothing changes. Without a name the item is called
        after the file name up to its first dot, which throws for a name made of
        dots only. `loaded` says whether the item read the file: if so the item is
        selected and announced as by `createItem`; if not, whatever is filed under
        its name is removed. The item is returned either way. */
    method LoadItem(cls: PluginClass, name: Option<string>, file: Option<string>, instantiated: bool, loaded: bool)
      returns (c: Completion<Option<Ref>>)
      requires Valid() && cls.kind == ItemKind
      modifies this`pluginMap, this`pinfoMap, this`objects, this`nextRef,
        this`itemSelectionChanged, this`itemListChanged
      ensures Valid()
      ensures file.None? ==> c == Normal(None) && unchanged(this)
      ensures c.Thrown? <==> file.Some? && name.None? && SplitFirstField(file.value).Thrown?
      ensures c.Thrown? ==> c.exception == ArrayIndexOutOfBoundsException && unchanged(this)
      ensures c.Normal? && file.Some? ==> (c.value.Some? <==> cls.isPlugin && instantiated)
      ensures c.Normal? && c.value.Some? ==>
        var r := c.value.value;
        && r == old(nextRef) && r in objects && objects[r].Item? && objects[r].cls == cls
        && (name.Some? ==> objects[r].name == name.value)
        && (name.None? ==> objects[r].name == SplitFirstField(file.value).value)
        && (loaded ==> objects[r].selected && itemSelectionChanged && itemListChanged)
        && (!loaded ==>
              objects[r].name !in pluginMap[cls].entries && itemSelectionChanged &&
              itemListChanged == old(itemListChanged))
      ensures c.Normal? && c.value.Some? && loaded ==>
        && Filed(old(objects), old(pluginMap), objects, pluginMap, cls, c.value.value)
        && (cls.exclusive ==>
              forall q :: q in objects && q != c.value.value && IsRegistered(objects, pluginMap, q) && objects[q].Item? && objects[q].cls == cls ==>
                !objects[q].selected)
      ensures c.Normal? && c.value.Some? && !loaded ==>
        RolledBack(old(objects), old(pluginMap), objects, pluginMap, cls, c.value.value)
    {
      if file.None? {
        return Normal(None);
      }
      var n: string;
      if name.None? {
        var field := SplitFirstField(file.value);
        if field.Thrown? {
          return Thrown(field.exception);
        }
        n := field.value;
      } else {
        n := name.value;
      }
      var r := LoadNamed(cls, n, instantiated, loaded);
      return Normal(r);
    }

    /** The part of `loadItem` after the name is known: `createPlugin`, then
        `setSelectedItem` and `_addItemNode` when the item read its file, or
        `removeItem` when it did not. */
    method LoadNamed(cls: PluginClass, n: string, instantiated: bool, loaded: bool) returns (r: Option<Ref>)
      requires Valid() && cls.kind == ItemKind
      modifies this`pluginMap, this`pinfoMap, this`objects, this`nextRef,
        this`itemSelectionChanged, this`itemListChanged
      ensures Valid()
      ensures r.Some? <==> cls.isPlugin && instantiated
      ensures r.Some? ==>
        && r.value == old(nextRef) && r.value in objects && objects[r.value].Item?
        && objects[r.value].cls == cls && objects[r.value].name == n
        && (loaded ==> objects[r.value].selected && itemSelectionChanged && itemListChanged)
        && (!loaded ==> n !in pluginMap[cls].entries && itemSelectionChanged && itemListChanged == old(itemListChanged))
      ensures r.Some? && loaded ==>
        && Filed(old(objects), old(pluginMap), objects, pluginMap, cls, r.value)
        && (cls.exclusive ==>
              forall q :: q in objects && q != r.value && IsRegistered(objects, pluginMap, q) && objects[q].Item? && objects[q].cls == cls ==>
                !objects[q].selected)
      ensures r.Some? && !loaded ==> RolledBack(old(objects), old(pluginMap), objects, pluginMap, cls, r.value)
    {
      if loaded {
        r := CreateAnnounced(cls, n, instantiated);
      } else {
        r := CreateRemoved(cls, n, instantiated);
      }
    }

    /** `createPlugin` followed by `Announce`, as `createItem` does and as
        `loadItem` does for an item that read its file. */
    method CreateAnnounced(cls: PluginClass, n: string, instantiated: bool) returns (r: Option<Ref>)
      requires Valid() && cls.kind == ItemKind
      modifies this`pluginMap, this`pinfoMap, this`objects, this`nextRef,
        this`itemSelectionChanged, this`itemListChanged
      ensures Valid()
      ensures r.Some? <==> cls.isPlugin && instantiated
      ensures r.None? ==>
        objects == old(objects) && itemSelectionChanged == old(itemSelectionChanged) &&
        itemListChanged == old(itemListChanged)
      ensures r.Some? ==>
        && r.value == old(nextRef) && r.value !in old(objects)
        && r.value in objects && objects[r.value].Item? && objects[r.value].cls == cls
        && objects[r.value].name == n && objects[r.value].selected
        && itemSelectionChanged && itemListChanged
        && Filed(old(objects), old(pluginMap), objects, pluginMap, cls, r.value)
        && (cls.exclusive ==>
              forall q :: q in objects && q != r.value && IsRegistered(objects, pluginMap, q) && objects[q].Item? && objects[q].cls == cls ==>
                !objects[q].selected)
    {
      r := CreatePlugin(cls, n, instantiated);
      if r.Some? {
        AnnounceCreated(r.value, old(objects), old(pluginMap), cls, n);
      }
    }

    /** `createPlugin` followed by `removeItem`, as `loadItem` does for an item
        that failed to read its file. */
    method CreateRemoved(cls: PluginClass, n: string, instantiated: bool) returns (r: Option<Ref>)
      requires Valid() && cls.kind == ItemKind
      modifies this`pluginMap, this`pinfoMap, this`objects, this`nextRef, this`itemSelectionChanged
      ensures Valid()
      ensures r.Some? <==> cls.isPlugin && instantiated
      ensures r.Some? ==>
        && r.value == old(nextRef) && r.value in objects && objects[r.value].Item?
        && objects[r.value].cls == cls && objects[r.value].name == n
        && n !in pluginMap[cls].entries && itemSelectionChanged
        && RolledBack(old(objects), old(pluginMap), objects, pluginMap, cls, r.value)
    {
      r := CreatePlugin(cls, n, instantiated);
      if r.Some? {
        RemoveUnloaded(r.value, old(objects), old(pluginMap), cls, n);
      }
    }

    /** `Announce` on the item `createPlugin` has just made from the registry
        `before`/`beforeMap`. */
    method AnnounceCreated(r: Ref, ghost before: Objects, ghost beforeMap: PluginMap, cls: PluginClass, n: string)
      requires Valid() && r !in before && cls.kind == ItemKind
      requires objects == before[r := NewPlugin(cls, n)]
      requires var pm := WithClass(beforeMap, cls);
        && pm[cls].Valid()
        && pluginMap == (if n !in pm[cls].entries then pm[cls := Put(pm[cls], n, r)] else pm)
        && (IsRegistered(objects, pluginMap, r) <==> n !in pm[cls].entries)
      requires forall q :: IsRegistered(before, beforeMap, q) ==> IsRegistered(objects, pluginMap, q)
      modifies this`objects, this`itemSelectionChanged, this`itemListChanged
      ensures Valid()
      ensures Filed(before, beforeMap, objects, pluginMap, cls, r)
      ensures r in objects && objects[r].Item? && objects[r].cls == cls && objects[r].name == n && objects[r].selected
      ensures itemSelectionChanged && itemListChanged
      ensures cls.exclusive ==>
        forall q :: q in objects && q != r && IsRegistered(objects, pluginMap, q) && objects[q].Item? && objects[q].cls == cls ==>
          !objects[q].selected
    {
      Announce(r);
    }

    /** `removeItem(item)` on the item `createPlugin` has just made from the
        registry `before`/`beforeMap`, when it failed to load. */
    method RemoveUnloaded(r: Ref, ghost before: Objects, ghost beforeMap: PluginMap, cls: PluginClass, n: string)
      requires Valid() && Consistent(before, beforeMap) && r !in before
      requires cls.isPlugin && cls.kind == ItemKind
      requires objects == before[r := NewPlugin(cls, n)]
      requires var pm := WithClass(beforeMap, cls);
        pluginMap == if n !in pm[cls].entries then pm[cls := Put(pm[cls], n, r)] else pm
      modifies this`objects, this`pluginMap, this`itemSelectionChanged
      ensures Valid()
      ensures RolledBack(before, beforeMap, objects, pluginMap, cls, r)
      ensures r in objects && objects[r].Item? && objects[r].cls == cls && objects[r].name == n
      ensures n !in pluginMap[cls].entries && itemSelectionChanged
    {
      ghost var filed := pluginMap;
      SelectItemEffect(objects, pluginMap, r, false);
      RemoveItem(r);
      assert objects == before[r := NewPlugin(cls, n)];
      RollbackUnfiles(before, beforeMap, filed, cls, n, r);
    }

    /** `createView(cls, name)`: a view named after the class title when no name is
        given (which throws for a class never registered). */
    method CreateView(cls: PluginClass, name: Option<string>, instantiated: bool)
      returns (c: Completion<Option<Ref>>)
      requires Valid() && cls.kind == ViewKind
      modifies this`pluginMap, this`pinfoMap, this`objects, this`nextRef
      ensures Valid()
      ensures c.Thrown? <==> name.None? && cls !in old(pinfoMap)
      ensures c.Thrown? ==> c.exception == NullPointerException && unchanged(this)
      ensures c.Normal? ==> (c.value.Some? <==> cls.isPlugin && instantiated)
      ensures c.Normal? && c.value.Some? ==>
        var r := c.value.value;
        && r == old(nextRef)
        && objects == old(objects)[r := NewPlugin(cls, match name case Some(n) => n case None => old(pinfoMap)[cls].title)]
        && var n := objects[r].name;
        && var pm := WithClass(old(pluginMap), cls);
        && pluginMap == (if n !in pm[cls].entries then pm[cls := Put(pm[cls], n, r)] else pm)
        && (IsRegistered(objects, pluginMap, r) <==> n !in pm[cls].entries)
      ensures forall q :: IsRegistered(old(objects), old(pluginMap), q) ==> IsRegistered(objects, pluginMap, q)
    {
      var n: string;
      if name.None? {
        if cls !in pinfoMap {
          return Thrown(NullPointerException);
        }
        n := pinfoMap[cls].title;
      } else {
        n := name.value;
      }
      var r := CreatePlugin(cls, n, instantiated);
      return Normal(r);
    }

    // ------------------------------------------------------ removal, rename

    /** `removeItem(item)`: unselects the item, drops whatever its class collection
        files under the item's name (the item itself, or a namesake when the item
        was never filed) and raises the selection flag. */
    method RemoveItem(r: Ref)
      requires Valid() && r in objects && objects[r].Item?
      modifies this`objects, this`pluginMap, this`itemSelectionChanged
      ensures Valid()
      ensures var c := old(objects)[r].cls;
        var k := old(objects)[r].name;
        && objects == SelectItem(old(objects), old(pluginMap), r, false)
        && objects[r] == old(objects)[r].(selected := false)
        && SameShape(old(objects), objects)
        && pluginMap == old(pluginMap)[c := Remove(old(pluginMap)[c], k)]
        && k !in pluginMap[c].entries
        && itemSelectionChanged
        && forall q :: IsRegistered(objects, pluginMap, q) <==>
             IsRegistered(old(objects), old(pluginMap), q) && !(k in old(pluginMap)[c].entries && old(pluginMap)[c].entries[k] == q)
    {
      // Every object's class is registered, so the collection always exists.
      SetSelectedItem(Some(r), false);
      Unfile(objects[r].cls, objects[r].name);
      ReselectItems();
    }

    /** The change `removeItem` makes to the registry: the entry filed under `k` in
        class `c` is dropped, which unregisters exactly the instance filed there. */
    method Unfile(c: PluginClass, k: string)
      requires Valid() && c in pluginMap
      modifies this`pluginMap
      ensures Valid()
      ensures pluginMap == old(pluginMap)[c := Remove(old(pluginMap)[c], k)]
      ensures forall q :: IsRegistered(objects, pluginMap, q) <==>
        IsRegistered(objects, old(pluginMap), q) && !(k in old(pluginMap)[c].entries && old(pluginMap)[c].entries[k] == q)
    {
      RemoveKeepsConsistent(objects, pluginMap, c, k);
      pluginMap := pluginMap[c := Remove(pluginMap[c], k)];
    }

    /** `renamePlugin(item, newName)`: fails when `newName` is filed in the item's
        class collection, which includes the item's own current name; otherwise
        succeeds, and when the name differs the entry under the old name is dropped,
        the item is filed under the new one and the list flag is raised. */
    method RenamePlugin(r: Ref, newName: string) returns (ok: bool)
      requires Valid() && r in objects
      modifies this`objects, this`pluginMap, this`itemListChanged
      ensures Valid()
      ensures var c := old(objects)[r].cls;
        ok == (newName !in old(pluginMap)[c].entries)
      ensures IsRegistered(old(objects), old(pluginMap), r) && newName == old(objects)[r].name ==> !ok
      ensures !ok || newName == old(objects)[r].name ==>
        objects == old(objects) && pluginMap == old(pluginMap) && itemListChanged == old(itemListChanged)
      ensures ok && newName != old(objects)[r].name ==>
        var c := old(objects)[r].cls;
        && objects == old(objects)[r := old(objects)[r].(name := newName)]
        && pluginMap == RenamedMap(old(pluginMap), c, old(objects)[r].name, newName, r)
        && IsRegistered(objects, pluginMap, r)
        && itemListChanged
    {
      // Every object's class is registered, so the collection always exists.
      var c := objects[r].cls;
      var m := pluginMap[c];
      if newName !in m.entries {
        if newName != objects[r].name {
          Refile(r, newName);
          itemListChanged := true;
        }
        return true;
      }
      return false;
    }

    /** The change `renamePlugin` makes: the entry under the item's old name is
        dropped and the item, renamed, is filed under the new name. */
    method Refile(r: Ref, newName: string)
      requires Valid() && r in objects
      requires newName !in pluginMap[objects[r].cls].entries && newName != objects[r].name
      modifies this`objects, this`pluginMap
      ensures Valid()
      ensures objects == old(objects)[r := old(objects)[r].(name := newName)]
      ensures pluginMap == RenamedMap(old(pluginMap), old(objects)[r].cls, old(objects)[r].name, newName, r)
      ensures IsRegistered(objects, pluginMap, r)
    {
      RefileKeepsInv(objects, nextRef, pluginMap, pinfoMap, selectedViewList, selectedItemList, focusedItem, currentMode, r, newName);
      pluginMap := RenamedMap(pluginMap, objects[r].cls, objects[r].name, newName, r);
      objects := objects[r := objects[r].(name := newName)];
    }

    // -------------------------------------------------------- notification

    /** `_notifyItemListChanged()`: every view of the view list is told, then the
        list flag is cleared. */
    method NotifyItemListChanged()
      modifies this`notices, this`itemListChanged
      ensures notices == old(notices) + Fanout(selectedViewList, ListChanged)
      ensures !itemListChanged
    {
      Deliver(ListChanged);
      itemListChanged := false;
    }

    /** `_notifyFocusedItemChanged()`: every view is told the focused item, then the
        focus flag is cleared. */
    method NotifyFocusedItemChanged()
      modifies this`notices, this`focusedItemChanged
      ensures notices == old(notices) + Fanout(selectedViewList, FocusChanged(focusedItem))
      ensures !focusedItemChanged
    {
      Deliver(FocusChanged(focusedItem));
      focusedItemChanged := false;
    }

    /** `_notifyItemPropertyChanged()`: every view is told, then the property flag
        is cleared. */
    method NotifyItemPropertyChanged()
      modifies this`notices, this`itemPropertyChanged
      ensures notices == old(notices) + Fanout(selectedViewList, PropertyChanged)
      ensures !itemPropertyChanged
    {
      Deliver(PropertyChanged);
      itemPropertyChanged := false;
    }

    /** `itemPropertyChanged()`: asks the next tick to tell the views that a
        property changed. */
    method ItemPropertyChanged()
      modifies this`itemPropertyChanged
      ensures itemPropertyChanged
    {
      itemPropertyChanged := true;
    }

    // ------------------------------------------------------------ the tick

    /** `_control()`: records the time since the last tick and its extremes,
        refreshes the view list and steps each listed view through its lifecycle,
        in list order. `elapsed` stands for the clock reading less the previous
        one. */
    method Control(wb: Workbench, resp: Ref -> ViewResponse, elapsed: int)
      requires Valid()
      modifies this`objects, this`selectedViewList, this`now, this`max, this`min
      ensures Valid()
      ensures now == elapsed && max == Max(old(max), elapsed) && min == Min(old(min), elapsed)
      ensures selectedViewList == OpenViews(old(objects), wb)
      ensures objects == ControlAll(old(objects), selectedViewList, resp)
    {
      UpdateViewList(wb);
      var o := StepViews(objects, selectedViewList, resp);
      ViewStepKeepsInv(objects, o, nextRef, pluginMap, pinfoMap, selectedViewList, selectedItemList, focusedItem, currentMode);
      objects, now, max, min := o, elapsed, Max(max, elapsed), Min(min, elapsed);
    }

    /** The timer task: brings the selection list up to date when its flag is
        raised, refreshes the view list, sends the pending notifications in a
        fixed order (list, focus, property) and, when the GrxUI perspective is
        shown, runs the control step. Afterwards no flag is raised: view callbacks
        are answers and notices here, so none of them can call back into the
        manager and raise a flag in the middle of the tick. */
    method Tick(wb: Workbench, resp: Ref -> ViewResponse, elapsed: int)
      requires Valid()
      modifies this`objects, this`selectedViewList, this`selectedItemList, this`notices,
        this`itemSelectionChanged, this`itemListChanged, this`focusedItemChanged, this`itemPropertyChanged,
        this`now, this`max, this`min
      ensures Valid()
      ensures !itemSelectionChanged && !itemListChanged && !focusedItemChanged && !itemPropertyChanged
      ensures selectedViewList == OpenViews(old(objects), wb)
      ensures notices == PendingNotices(old(notices), OpenViews(old(objects), wb), old(itemSelectionChanged),
        old(itemListChanged), old(focusedItemChanged), old(itemPropertyChanged), selectedItemList, focusedItem)
      ensures old(itemSelectionChanged) ==> IsSelectionList(old(objects), pluginMap, selectedItemList)
      ensures !old(itemSelectionChanged) ==> selectedItemList == old(selectedItemList)
      ensures wb.grxPerspectiveShown ==>
        && objects == ControlAll(old(objects), selectedViewList, resp)
        && now == elapsed && max == Max(old(max), elapsed) && min == Min(old(min), elapsed)
      ensures !wb.grxPerspectiveShown ==>
        objects == old(objects) && now == old(now) && max == old(max) && min == old(min)
    {
      NotifyPending(wb);
      if wb.grxPerspectiveShown {
        Control(wb, resp, elapsed);
      }
    }

    /** The notification half of the timer task. */
    method NotifyPending(wb: Workbench)
      requires Valid()
      modifies this`selectedViewList, this`selectedItemList, this`notices,
        this`itemSelectionChanged, this`itemListChanged, this`focusedItemChanged, this`itemPropertyChanged
      ensures Valid()
      ensures !itemSelectionChanged && !itemListChanged && !focusedItemChanged && !itemPropertyChanged
      ensures selectedViewList == OpenViews(objects, wb)
      ensures notices == PendingNotices(old(notices), selectedViewList, old(itemSelectionChanged),
        old(itemListChanged), old(focusedItemChanged), old(itemPropertyChanged), selectedItemList, focusedItem)
      ensures old(itemSelectionChanged) ==> IsSelectionList(objects, pluginMap, selectedItemList)
      ensures !old(itemSelectionChanged) ==> selectedItemList == old(selectedItemList)
    {
      RefreshSelection(wb);
      FlushNotices();
    }

    /** The start of the timer task: the selection list is rebuilt and announced
        when its flag is raised, and the view list is refreshed in any case. */
    method RefreshSelection(wb: Workbench)
      requires Valid()
      modifies this`selectedViewList, this`selectedItemList, this`notices, this`itemSelectionChanged
      ensures Valid()
      ensures !itemSelectionChanged
      ensures selectedViewList == OpenViews(objects, wb)
      ensures notices == if old(itemSelectionChanged)
        then old(notices) + Fanout(selectedViewList, SelectionChanged(selectedItemList))
        else old(notices)
      ensures old(itemSelectionChanged) ==> IsSelectionList(objects, pluginMap, selectedItemList)
      ensures !old(itemSelectionChanged) ==> selectedItemList == old(selectedItemList)
    {
      if itemSelectionChanged {
        UpdateItemSelection(wb);
      }
      UpdateViewList(wb);
    }

    /** The rest of the notifications of the timer task, each sent when its flag
        is raised. */
    method FlushNotices()
      modifies this`notices, this`itemListChanged, this`focusedItemChanged, this`itemPropertyChanged
      ensures !itemListChanged && !focusedItemChanged && !itemPropertyChanged
      ensures notices == PendingNotices(old(notices), selectedViewList, false, old(itemListChanged),
        old(focusedItemChanged), old(itemPropertyChanged), selectedItemList, focusedItem)
    {
      if itemListChanged {
        NotifyItemListChanged();
      }
      if focusedItemChanged {
        NotifyFocusedItemChanged();
      }
      if itemPropertyChanged {
        NotifyItemPropertyChanged();
      }
    }

    // ----------------------------------------------------------------- mode

    /** The first half of `setMode`: each view of the view list is stopped and
        waited for until it sleeps. */
    method StopViews()
      requires Valid()
      modifies this`objects
      ensures Valid()
      ensures objects == SleepAll(old(objects), selectedViewList)
    {
      var o := SleepViews(objects, selectedViewList);
      ViewStepKeepsInv(objects, o, nextRef, pluginMap, pinfoMap, selectedViewList, selectedItemList, focusedItem, currentMode);
      objects := o;
    }

    /** The object changes of a mode switch, in the order `setMode` makes them. */
    method SwitchSelection(mode: Ref)
      requires Valid() && mode in objects && objects[mode].Item?
      modifies this`objects, this`itemSelectionChanged
      ensures Valid()
      ensures objects == ModeObjects(old(objects), pluginMap, selectedViewList, mode)
      ensures mode in objects && objects[mode].Item?
      ensures itemSelectionChanged ==
        (old(itemSelectionChanged) || ModeRaisesSelection(SleepAll(old(objects), selectedViewList), pluginMap, mode))
    {
      StopViews();
      SelectOnly(mode);
    }

    /** `clearItemSelection()` then `setSelectedItem(mode, true)`. */
    method SelectOnly(mode: Ref)
      requires Valid() && mode in objects && objects[mode].Item?
      modifies this`objects, this`itemSelectionChanged
      ensures Valid()
      ensures objects == SelectItem(ClearedSelection(old(objects), pluginMap), pluginMap, mode, true)
      ensures mode in objects && objects[mode].Item?
      ensures itemSelectionChanged == (old(itemSelectionChanged) || ModeRaisesSelection(old(objects), pluginMap, mode))
    {
      ghost var before := objects;
      ClearItemSelection();
      assert objects[mode].selected == (!IsRegistered(before, pluginMap, mode) && before[mode].selected);
      SetSelectedItem(Some(mode), true);
    }

    /** The end of a mode switch: `mode` becomes the current mode and the tick
        timings restart. */
    method EnterMode(mode: Ref)
      requires Valid() && mode in objects && objects[mode].Item?
      modifies this`currentMode, this`now, this`max, this`min
      ensures Valid()
      ensures currentMode == Some(mode) && now == 0 && max == 0 && min == 0
    {
      ModeKeepsInv(objects, nextRef, pluginMap, pinfoMap, selectedViewList, selectedItemList, focusedItem, currentMode, mode);
      currentMode, now, max, min := Some(mode), 0, 0, 0;
    }

    /** `setMode(mode)`: nothing happens when `mode` is already the current mode.
        Otherwise the views are put to sleep, every registered item is unselected,
        the mode item is selected and becomes the current mode, and the tick
        timings restart from zero. */
    method SetMode(mode: Ref)
      requires Valid() && mode in objects && objects[mode].Item?
      modifies this`objects, this`itemSelectionChanged, this`currentMode, this`now, this`max, this`min
      ensures Valid()
      ensures old(currentMode) == Some(mode) ==> unchanged(this)
      ensures old(currentMode) != Some(mode) ==>
        && currentMode == Some(mode)
        && objects == ModeObjects(old(objects), pluginMap, selectedViewList, mode)
        && itemSelectionChanged ==
             (old(itemSelectionChanged) || ModeRaisesSelection(SleepAll(old(objects), selectedViewList), pluginMap, mode))
        && now == 0 && max == 0 && min == 0
    {
      if currentMode == Some(mode) {
        return;
      }
      SwitchSelection(mode);
      EnterMode(mode);
    }
  }

  /** The objects after `setMode(mode)` switches modes: the listed views are put
      to sleep, every registered item is unselected, then the mode item is
      selected. */
  ghost function ModeObjects(objects: Objects, pluginMap: PluginMap, views: seq<Ref>, mode: Ref): Objects
    requires Consistent(objects, pluginMap) && mode in objects && objects[mode].Item?
    requires AllViews(objects, views)
  {
    var cleared := ClearedSelection(SleepAll(objects, views), pluginMap);
    SelectItem(cleared, pluginMap, mode, true)
  }

  /** What creating and announcing item `r` of class `cls` did to the registry
      `before`/`beforeMap`: `r` is a new instance of `cls`, selected as
      `setSelectedItem` selects it; it is filed under its name unless that name
      was already taken in its class (a namesake is never displaced); every
      earlier registration is kept. */
  ghost predicate Filed(before: Objects, beforeMap: PluginMap, objects: Objects, pluginMap: PluginMap, cls: PluginClass, r: Ref) {
    && r in objects && objects[r].Item? && cls.kind == ItemKind
    && var n := objects[r].name;
    && var pm := WithClass(beforeMap, cls);
    && pm[cls].Valid()
    && pluginMap == (if n !in pm[cls].entries then pm[cls := Put(pm[cls], n, r)] else pm)
    && objects == SelectItem(before[r := NewPlugin(cls, n)], pluginMap, r, true)
    && (IsRegistered(objects, pluginMap, r) <==> n !in pm[cls].entries)
    && (forall q :: IsRegistered(before, beforeMap, q) ==> IsRegistered(objects, pluginMap, q))
  }

  /** What creating item `r` and then removing it again did to the registry
      `before`/`beforeMap`: the only new object is the unselected instance `r`,
      and the class collection has lost whatever was filed under `r`'s name,
      which unregisters exactly that namesake and nothing else. */
  ghost predicate RolledBack(before: Objects, beforeMap: PluginMap, objects: Objects, pluginMap: PluginMap, cls: PluginClass, r: Ref) {
    && r in objects && objects[r].Item?
    && var n := objects[r].name;
    && var pm := WithClass(beforeMap, cls);
    && pm[cls].Valid()
    && objects == before[r := NewPlugin(cls, n)]
    && pluginMap == pm[cls := Remove(pm[cls], n)]
    && (forall q :: IsRegistered(objects, pluginMap, q) <==>
          IsRegistered(before, beforeMap, q) && !(n in pm[cls].entries && pm[cls].entries[n] == q))
  }

  /** The registry after `loadItem` creates an instance and then removes it
      because it did not load: whether or not the instance was filed, its class
      collection loses whatever was filed under its name before, which
      unregisters exactly that namesake. */
  lemma RollbackUnfiles(objects: Objects, pluginMap: PluginMap, filed: PluginMap, cls: PluginClass, n: string, r: Ref)
    requires Consistent(objects, pluginMap) && cls.isPlugin && cls.kind == ItemKind && r !in objects
    requires var pm := WithClass(pluginMap, cls);
      filed == if n !in pm[cls].entries then pm[cls := Put(pm[cls], n, r)] else pm
    ensures var pm := WithClass(pluginMap, cls);
      && filed[cls := Remove(filed[cls], n)] == pm[cls := Remove(pm[cls], n)]
      && forall q :: IsRegistered(objects[r := NewPlugin(cls, n)], pm[cls := Remove(pm[cls], n)], q) <==>
           IsRegistered(objects, pluginMap, q) && !(n in pm[cls].entries && pm[cls].entries[n] == q)
  {
    var pm := WithClass(pluginMap, cls);
    if n !in pm[cls].entries {
      RemoveAfterPut(pm[cls], n, r);
    }
    WithClassKeepsConsistent(objects, pluginMap, cls);
    AddObjectKeepsConsistent(objects, pm, r, NewPlugin(cls, n));
    RemoveKeepsConsistent(objects[r := NewPlugin(cls, n)], pm, cls, n);
  }

  /** Whether a mode switch raises the selection flag: clearing the selection
      raises it when some registered item was selected, and selecting the mode
      item raises it when the item is unselected after the clear, which it is
      whenever it is registered. */
  ghost predicate ModeRaisesSelection(objects: Objects, pluginMap: PluginMap, mode: Ref) {
    || SomeRegisteredSelected(objects, pluginMap)
    || IsRegistered(objects, pluginMap, mode)
    || !(mode in objects && objects[mode].Item? && objects[mode].selected)
  }

  /** Putting views to sleep changes neither which items are registered nor
      which are selected, so it does not change whether a mode switch raises
      the selection flag. */
  lemma SleepKeepsSelection(objects: Objects, pluginMap: PluginMap, views: seq<Ref>, mode: Ref)
    requires AllViews(objects, views) && mode in objects && objects[mode].Item?
    ensures var asleep := SleepAll(objects, views);
      && asleep[mode] == objects[mode]
      && (ModeRaisesSelection(asleep, pluginMap, mode) <==> ModeRaisesSelection(objects, pluginMap, mode))
  {
    var asleep := SleepAll(objects, views);
    assert forall q :: q in objects ==> (IsRegistered(asleep, pluginMap, q) <==> IsRegistered(objects, pluginMap, q));
    if SomeRegisteredSelected(objects, pluginMap) {
      var q :| q in objects && IsRegistered(objects, pluginMap, q) && objects[q].Item? && objects[q].selected;
      assert asleep[q] == objects[q];
    }
    if SomeRegisteredSelected(asleep, pluginMap) {
      var q :| q in asleep && IsRegistered(asleep, pluginMap, q) && asleep[q].Item? && asleep[q].selected;
      assert asleep[q] == objects[q];
    }
  }

  /** A mode switch leaves the mode item as the only selected registered item. */
  lemma ModeSelection(objects: Objects, pluginMap: PluginMap, views: seq<Ref>, mode: Ref)
    requires Consistent(objects, pluginMap) && mode in objects && objects[mode].Item?
    requires AllViews(objects, views)
    ensures var o := ModeObjects(objects, pluginMap, views, mode);
      && Consistent(o, pluginMap)
      && o[mode].selected
      && (forall q :: q in o && q != mode && IsRegistered(o, pluginMap, q) && o[q].Item? ==> !o[q].selected)
  {
    var asleep := SleepAll(objects, views);
    assert SameShape(objects, asleep);
    SameShapeKeepsConsistent(objects, asleep, pluginMap);
    var cleared := ClearedSelection(asleep, pluginMap);
    assert SameShape(asleep, cleared);
    SameShapeKeepsConsistent(asleep, cleared, pluginMap);
    SelectItemEffect(cleared, pluginMap, mode, true);
    SelectItemShape(cleared, pluginMap, mode, true);
    SameShapeKeepsConsistent(cleared, SelectItem(cleared, pluginMap, mode, true), pluginMap);
  }

  /** A mode switch leaves every listed view asleep. */
  lemma ModeSleeps(objects: Objects, pluginMap: PluginMap, views: seq<Ref>, mode: Ref)
    requires Consistent(objects, pluginMap) && mode in objects && objects[mode].Item?
    requires AllViews(objects, views)
    ensures var o := ModeObjects(objects, pluginMap, views, mode);
      forall v :: v in views ==> o[v].View? && o[v].state == Sleep
  {
    var asleep := SleepAll(objects, views);
    assert SameShape(objects, asleep);
    SameShapeKeepsConsistent(objects, asleep, pluginMap);
    var cleared := ClearedSelection(asleep, pluginMap);
    assert SameShape(asleep, cleared);
    SameShapeKeepsConsistent(asleep, cleared, pluginMap);
    SelectItemEffect(cleared, pluginMap, mode, true);
    var o := SelectItem(cleared, pluginMap, mode, true);
    forall v | v in views
      ensures o[v].View? && o[v].state == Sleep
    {
      var i :| 0 <= i < |views| && views[i] == v;
      assert asleep[v] == objects[v].(state := Sleep);
    }
  }

  /** A mode switch keeps every object's class, name and kind. */
  lemma ModeKeepsShape(objects: Objects, pluginMap: PluginMap, views: seq<Ref>, mode: Ref)
    requires Consistent(objects, pluginMap) && mode in objects && objects[mode].Item?
    requires AllViews(objects, views)
    ensures SameShape(objects, ModeObjects(objects, pluginMap, views, mode))
  {
    var asleep := SleepAll(objects, views);
    assert SameShape(objects, asleep);
    SameShapeKeepsConsistent(objects, asleep, pluginMap);
    var cleared := ClearedSelection(asleep, pluginMap);
    assert SameShape(asleep, cleared);
    SameShapeKeepsConsistent(asleep, cleared, pluginMap);
    SelectItemShape(cleared, pluginMap, mode, true);
  }

  /** Making an item the current mode keeps the manager's invariant. */
  lemma ModeKeepsInv(objects: Objects, nextRef: Ref, pluginMap: PluginMap, pinfoMap: map<PluginClass, PluginInfo>,
                     views: seq<Ref>, items: seq<Ref>, focusedItem: Option<Ref>, currentMode: Option<Ref>, mode: Ref)
    requires ManagerInv(objects, nextRef, pluginMap, pinfoMap, views, items, focusedItem, currentMode)
    requires mode in objects && objects[mode].Item?
    ensures ManagerInv(objects, nextRef, pluginMap, pinfoMap, views, items, focusedItem, Some(mode))
  {
  }

  /** Replacing the view list by another list of views keeps the manager's
      invariant. */
  lemma ViewListKeepsInv(objects: Objects, nextRef: Ref, pluginMap: PluginMap, pinfoMap: map<PluginClass, PluginInfo>,
                         views: seq<Ref>, vs: seq<Ref>, items: seq<Ref>, focusedItem: Option<Ref>, currentMode: Option<Ref>)
    requires ManagerInv(objects, nextRef, pluginMap, pinfoMap, views, items, focusedItem, currentMode)
    requires AllViews(objects, vs)
    ensures ManagerInv(objects, nextRef, pluginMap, pinfoMap, vs, items, focusedItem, currentMode)
  {
  }

  /** The loop of `updateViewList()` over the page's view references. */
  method CollectViews(objects: Objects, refs: seq<Ref>) returns (vs: seq<Ref>)
    ensures vs == FilterViews(objects, refs)
  {
    vs := [];
    var i := 0;
    while i < |refs|
      invariant 0 <= i <= |refs|
      invariant vs == FilterViews(objects, refs[..i])
    {
      assert refs[..i + 1][..i] == refs[..i];
      var r := refs[i];
      if r in objects && objects[r].View? {
        vs := vs + [r];
      }
      i := i + 1;
    }
    assert refs[..i] == refs;
  }

  /** The `_control` loop over the view list. */
  method StepViews(objects: Objects, views: seq<Ref>, resp: Ref -> ViewResponse) returns (o: Objects)
    requires AllViews(objects, views)
    ensures o == ControlAll(objects, views, resp)
  {
    o := objects;
    var i := 0;
    while i < |views|
      invariant 0 <= i <= |views|
      invariant AllViews(o, views)
      invariant ControlAll(o, views[i..], resp) == ControlAll(objects, views, resp)
    {
      var v := views[i];
      assert views[i..][1..] == views[i + 1..];
      o := o[v := ControlStep(o[v], resp(v))];
      i := i + 1;
    }
    assert views[i..] == [];
  }

  /** The stop-and-wait loop of `setMode` over the view list. */
  method SleepViews(objects: Objects, views: seq<Ref>) returns (o: Objects)
    requires AllViews(objects, views)
    ensures o == SleepAll(objects, views)
  {
    o := objects;
    var i := 0;
    while i < |views|
      invariant 0 <= i <= |views|
      invariant AllViews(objects, views[..i])
      invariant o == SleepAll(objects, views[..i])
    {
      assert views[..i + 1][..i] == views[..i];
      o := o[views[i] := o[views[i]].(state := Sleep)];
      i := i + 1;
    }
    assert views[..i] == views;
  }

  /** The list `_updateItemSelection()` builds: the class collections are walked
      one after the other and every selected item met is appended. */
  method SelectedItems(objects: Objects, pluginMap: PluginMap) returns (list: seq<Ref>)
    requires Consistent(objects, pluginMap)
    ensures IsSelectionList(objects, pluginMap, list)
  {
    list := [];
    var todo := pluginMap.Keys;
    ghost var visited: set<Ref> := {};
    while todo != {}
      invariant todo <= pluginMap.Keys
      invariant VisitedClasses(objects, pluginMap, pluginMap.Keys - todo, visited)
      invariant Distinct(list)
      invariant forall q :: q in list <==> q in visited && objects[q].Item? && objects[q].selected
      decreases todo
    {
      var c :| c in todo;
      var m := pluginMap[c];
      var j := 0;
      while j < |m.keys|
        invariant 0 <= j <= |m.keys|
        invariant VisitedUpTo(objects, pluginMap, pluginMap.Keys - todo, c, j, visited)
        invariant Distinct(list)
        invariant forall q :: q in list <==> q in visited && objects[q].Item? && objects[q].selected
      {
        var o := m.entries[m.keys[j]];
        VisitNext(objects, pluginMap, pluginMap.Keys - todo, c, j, visited);
        if objects[o].Item? && objects[o].selected {
          list := list + [o];
        }
        visited := visited + {o};
        j := j + 1;
      }
      VisitClassDone(objects, pluginMap, pluginMap.Keys - todo, c, visited);
      assert pluginMap.Keys - todo + {c} == pluginMap.Keys - (todo - {c});
      todo := todo - {c};
    }
    VisitAllDone(objects, pluginMap, visited);
  }

  /** The objects after the focused item, if any, has lost the focus. */
  function Unfocused(objects: Objects, focus: Option<Ref>): (o: Objects)
    requires focus.Some? ==> focus.value in objects && objects[focus.value].Item?
    ensures SameShape(objects, o)
  {
    match focus
    case None => objects
    case Some(f) => objects[f := objects[f].(focused := false)]
  }

  /** Clearing the old focus leaves no item focused. */
  lemma UnfocusAgrees(objects: Objects, focus: Option<Ref>)
    requires FocusAgrees(objects, focus)
    ensures FocusAgrees(Unfocused(objects, focus), None)
  {
  }

  /** Focusing `r` when no item is focused makes `r` the focused item. */
  lemma FocusOnAgrees(objects: Objects, r: Ref)
    requires FocusAgrees(objects, None) && r in objects && objects[r].Item?
    ensures FocusAgrees(objects[r := objects[r].(focused := true)], Some(r))
  {
  }

  /** Handing the focus from `focus` to `item` keeps the registry consistent, and
      the focus bookkeeping then agrees with `item` as the focused item. */
  lemma FocusHandover(objects: Objects, pluginMap: PluginMap, views: seq<Ref>, items: seq<Ref>,
                      focus: Option<Ref>, mode: Option<Ref>, item: Option<Ref>)
    requires Consistent(objects, pluginMap) && RefsAgree(objects, views, items, focus, mode)
    requires item.Some? ==> item.value in objects && objects[item.value].Item?
    ensures var u := Unfocused(objects, focus);
      && (item.None? ==> Consistent(u, pluginMap) && RefsAgree(u, views, items, None, mode))
      && (item.Some? ==>
            var o := u[item.value := u[item.value].(focused := true)];
            Consistent(o, pluginMap) && RefsAgree(o, views, items, item, mode))
  {
    var u := Unfocused(objects, focus);
    SameShapeKeepsConsistent(objects, u, pluginMap);
    SameShapeKeepsKinds(objects, u, views, items, mode);
    UnfocusAgrees(objects, focus);
    if item.Some? {
      var o := u[item.value := u[item.value].(focused := true)];
      assert SameShape(u, o);
      SameShapeKeepsConsistent(u, o, pluginMap);
      SameShapeKeepsKinds(u, o, views, items, mode);
      FocusOnAgrees(u, item.value);
    }
  }

  /** The body of `setSelectedItem` on the objects: when an exclusive item is
      selected, every other instance of its class collection is unselected in
      collection order; then the item takes the requested state. */
  method SelectInCollection(objects: Objects, pluginMap: PluginMap, r: Ref, select: bool) returns (o: Objects)
    requires Consistent(objects, pluginMap)
    requires r in objects && objects[r].Item?
    ensures o == SelectItem(objects, pluginMap, r, select)
  {
    o := objects;
    if select && objects[r].exclusive {
      var m := pluginMap[objects[r].cls];
      var vs := m.Values();
      var j := 0;
      while j < |m.keys|
        invariant 0 <= j <= |m.keys|
        invariant o == UnselectAll(objects, vs[..j])[r := objects[r]]
      {
        var q := m.entries[m.keys[j]];
        assert EntryAgrees(objects, objects[r].cls, m.keys[j], q);
        assert WellKinded(objects[q]);
        UnselectStep(objects, vs, j, r);
        if q != r {
          o := o[q := o[q].(selected := false)];
        }
        j := j + 1;
      }
      assert vs[..|m.keys|] == vs;
    }
    o := o[r := o[r].(selected := select)];
  }

  /** The bookkeeping of the name search: `tried` maps each name already found in
      use to its suffix, and those are exactly the suffixes below `i`. */
  ghost predicate TriedNames(tried: map<string, nat>, entries: map<string, Ref>, base: string, i: nat) {
    && (forall s :: s in tried ==> tried[s] < i && s == base + NatToString(tried[s]))
    && tried.Keys <= entries.Keys && |tried.Keys| == i
    && (forall k: nat :: k < i ==> base + NatToString(k) in entries)
  }

  /** One more suffix found in use: it is a new name, so at least `i + 1` names are
      in use. */
  lemma TryAnother(tried: map<string, nat>, entries: map<string, Ref>, base: string, i: nat)
    returns (tried': map<string, nat>)
    requires TriedNames(tried, entries, base, i)
    requires base + NatToString(i) in entries
    ensures TriedNames(tried', entries, base, i + 1)
    ensures i + 1 <= |entries.Keys|
  {
    var name := base + NatToString(i);
    assert name !in tried by {
      if name in tried {
        SuffixedNamesDistinct(base, tried[name], i);
      }
    }
    tried' := tried[name := i];
    TriedOneMore(tried, entries, base, i);
    SubsetCardinality(tried'.Keys, entries.Keys);
  }

  /** Recording a new suffix in use keeps the bookkeeping of the name loop. */
  lemma TriedOneMore(tried: map<string, nat>, entries: map<string, Ref>, base: string, i: nat)
    requires TriedNames(tried, entries, base, i)
    requires base + NatToString(i) in entries && base + NatToString(i) !in tried
    ensures TriedNames(tried[base + NatToString(i) := i], entries, base, i + 1)
  {
    var name := base + NatToString(i);
    var tried' := tried[name := i];
    assert tried'.Keys == tried.Keys + {name};
    assert |tried'.Keys| == i + 1;
  }

  lemma SubsetCardinality<T>(a: set<T>, b: set<T>)
    requires a <= b
    ensures |a| <= |b|
  {
    assert b == a + (b - a);
  }
}
