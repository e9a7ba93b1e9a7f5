# GrxPluginManager: registry, selection and tick, in Dafny

This project models the core of `GrxPluginManager`, the plugin manager of the
GrxUI Eclipse front end of OpenHRP3, and proves properties of that model.
The core is the plugin registry (`pluginMap_` and `pinfoMap_`), the item and
view factory built on it, the selection and focus tracker with its four dirty
flags, the mode switch `setMode`, and the timer task. Each tick, that task
drains the dirty flags in a fixed order and steps each open view through its
SETUP, ACTIVE, CLEANUP and SLEEP lifecycle.

The Java objects become values in a store owned by the manager,
`objects: map<Ref, Plugin>`. A `Ref` is the identity of a Java object. The
registry, the selected-item list, the view list, the focused item and the
current mode all hold `Ref`s, so aliasing between them is explicit. The
manager is a Dafny class with the Java fields, and every operation that
changes them is a method with a field-granular `modifies` clause.
`PluginManager.Valid()` is the invariant every method keeps. It says that
the registry and the store agree: every filed instance exists, belongs to its
class and is filed under its own name, and every object's class is
registered. It also says that the metadata covers exactly the registered
classes and that every held reference points at an object of the right kind.
The focused flag of an item is set exactly when that item is the focused
item.

Files:

- `java_lang.dfy`: nullable references and exceptions as values (`Option`, `Completion`).
- `java_text.dfy`: the string operations used to build item names: `"" + i`, `toLowerCase`, `replaceAll(" ", "")` and `split("[.]")[0]`.
- `ordered_map.dfy`: `OrderedHashMap` as a key order plus a map.
- `plugins.dfy`: plugin classes, `PluginInfo`, items and views.
- `registry.dfy`: the registry and the store as values, and what selection, removal and renaming do to them.
- `lifecycle.dfy`: one `_control` step of a view, the `_control` loop, and the stop-and-wait of `setMode`.
- `views.dfy`: the workbench as the manager sees it, and the notifications views receive.
- `manager.dfy`: the `PluginManager` class and the loops it runs.

Inputs from outside the manager are parameters. A `Workbench` value holds
whether the GrxUI perspective is shown and which views the page holds. A
`ViewResponse` per view says what `setup`, `control` and `cleanup` answered.
`instantiated` says whether the plugin loader constructed the instance, and
`loaded` says whether `item.load(f)` succeeded. `file` is the file a URL
leads to. `elapsed` is the clock difference that `_control` computes.
Notifications to views are recorded, in delivery order, as `Notice`s in
`notices`.

Behaviour of the code a reader might not expect:

- `registerPluginInstance` does not raise the item-list flag. Neither does `renamePlugin` when the new name equals the old one.
- `setMode` raises no item-list flag. It does not select the mode's item classes and removes no items. It clears the selection, selects the mode item and resets the timings.
- `createItem(cls, null)` looks up the class title before it registers the class. For a class never registered, the title lookup throws a `NullPointerException`, so that case does not register the class lazily.
- Default names are lower-cased. A class titled `C` gets `newc0`, then `newc1`, not `newC0`.
- `createItem` and `loadItem` return null when the loader fails. `createPlugin` catches the failure, including the `NullPointerException` that `registerPluginInstance` throws when the loader gives back null, and shows it only in a warning dialog; the caller sees no exception, just null. The dialog is not modelled.
- The list, focus and property notifications are delivered without a `try`/`catch`. Only the selection notification and the control step catch per-view exceptions.
- `_updateItemSelection` clears its flag before it tells the views, so a selection change made by a view while it is being told survives to the next tick. `_notifyItemListChanged`, `_notifyItemPropertyChanged` and `_notifyFocusedItemChanged` clear their flags after the loop, so a change of the same kind raised by a view during that loop is lost.

## Model

| member | source | states |
|---|---|---|
| JavaText.NatToString | GrxUIonEclipse-project-0.9.8/src/com/generalrobotix/ui/GrxPluginManager.java:570 | the suffix `baseName + i` appends is a non-empty run of decimal digits with no leading zero, one digit exactly for i < 10 |
| JavaText.DecimalRoundTrip | GrxUIonEclipse-project-0.9.8/src/com/generalrobotix/ui/GrxPluginManager.java:570 | reading the decimal text of i back gives i |
| JavaText.NatToStringInjective | GrxUIonEclipse-project-0.9.8/src/com/generalrobotix/ui/GrxPluginManager.java:569-573 | different suffixes have different texts |
| JavaText.SuffixedNamesDistinct | GrxUIonEclipse-project-0.9.8/src/com/generalrobotix/ui/GrxPluginManager.java:569-573 | `baseName + i == baseName + j` only when i == j, so each round of the name loop tries a new name |
| JavaText.ToLower | GrxUIonEclipse-project-0.9.8/src/com/generalrobotix/ui/GrxPluginManager.java:568 | `toLowerCase` keeps the length, turns each ASCII upper-case letter into its lower-case letter (32 code points later), keeps every other character, and leaves no upper-case ASCII letter |
| JavaText.ToLowerIdempotent | GrxUIonEclipse-project-0.9.8/src/com/generalrobotix/ui/GrxPluginManager.java:568 | lower-casing twice is lower-casing once |
| JavaText.RemoveSpaces | GrxUIonEclipse-project-0.9.8/src/com/generalrobotix/ui/GrxPluginManager.java:568 | `replaceAll(" ", "")` leaves no space, keeps the count of every other character, and changes nothing without spaces |
| JavaText.RemoveSpacesAppend | GrxUIonEclipse-project-0.9.8/src/com/generalrobotix/ui/GrxPluginManager.java:568 | removing spaces from `a + b` keeps a space-free prefix `a` in front |
| JavaText.RemoveSpacesConcat | GrxUIonEclipse-project-0.9.8/src/com/generalrobotix/ui/GrxPluginManager.java:568 | removing spaces distributes over concatenation: from `a + b` it is removing them from `a`, then from `b` |
| JavaText.DefaultNameBase | GrxUIonEclipse-project-0.9.8/src/com/generalrobotix/ui/GrxPluginManager.java:567-568 | the stem of a default name starts with `new`, has no spaces and no upper-case letters |
| JavaText.FirstDot | GrxUIonEclipse-project-0.9.8/src/com/generalrobotix/ui/GrxPluginManager.java:610 | the first field of a split on `.` ends at the first dot, or at the end when there is none |
| JavaText.SplitFirstField | GrxUIonEclipse-project-0.9.8/src/com/generalrobotix/ui/GrxPluginManager.java:609-610 | `split("[.]")[0]` throws `ArrayIndexOutOfBoundsException` exactly for a non-empty name made only of dots; otherwise it is the dot-free prefix ending at the first dot |
| OrderedMaps.IndexOf | GrxUIonEclipse-project-0.9.8/src/com/generalrobotix/ui/GrxPluginManager.java:753 | the position of a key is its first occurrence |
| OrderedMaps.Put | GrxUIonEclipse-project-0.9.8/src/com/generalrobotix/ui/GrxPluginManager.java:696 | `put` maps the key to the value, appends a new key to the order and keeps the order of a present one |
| OrderedMaps.Remove | GrxUIonEclipse-project-0.9.8/src/com/generalrobotix/ui/GrxPluginManager.java:753 | `remove` drops the key and its entry and keeps the other keys in order |
| OrderedMaps.RemovePutMovesToEnd | GrxUIonEclipse-project-0.9.8/src/com/generalrobotix/ui/GrxPluginManager.java:796-797 | a renamed instance moves to the end of its collection's order; the collection keeps its size |
| Plugins.NewPluginInfo | GrxUIonEclipse-project-0.9.8/src/com/generalrobotix/ui/GrxPluginManager.java:541-547 | the title is the class's title field, or the simple class name without one; the last directory starts with the home path; the filter is `*.ext` exactly when the class names an extension; the class starts hidden |
| Plugins.NewPlugin | GrxUIonEclipse-project-0.9.8/src/com/generalrobotix/ui/GrxPluginManager.java:674 | the loader builds an item of an item class and a view of a view class, with the requested class and name |
| Registry.EntryIsRegistered | GrxUIonEclipse-project-0.9.8/src/com/generalrobotix/ui/GrxPluginManager.java:81-82 | every instance filed in `pluginMap_` is registered under its own name |
| Registry.SameShapeKeepsConsistent | GrxUIonEclipse-project-0.9.8/src/com/generalrobotix/ui/GrxPluginManager.java:949-968 | changing only selection, focus or view state keeps the registry consistent and registers the same instances |
| Registry.AddObjectKeepsConsistent | GrxUIonEclipse-project-0.9.8/src/com/generalrobotix/ui/GrxPluginManager.java:674 | a newly constructed, unfiled instance of a registered class registers nothing new |
| Registry.RegisteredNamesUnique | GrxUIonEclipse-project-0.9.8/src/com/generalrobotix/ui/GrxPluginManager.java:690-698 | two registered instances of one class never share a name |
| Registry.UnselectAll | GrxUIonEclipse-project-0.9.8/src/com/generalrobotix/ui/GrxPluginManager.java:956-960 | the unselect loop keeps the set of allocated objects; `UnselectAllAt` states its effect on each |
| Registry.UnselectAllAt | GrxUIonEclipse-project-0.9.8/src/com/generalrobotix/ui/GrxPluginManager.java:956-960 | exactly the listed items lose their selection, and nothing else about any object changes |
| Registry.UnselectStep | GrxUIonEclipse-project-0.9.8/src/com/generalrobotix/ui/GrxPluginManager.java:956-960 | one round of the unselect loop unselects the next instance unless it is the item itself |
| Registry.SelectItemEffect | GrxUIonEclipse-project-0.9.8/src/com/generalrobotix/ui/GrxPluginManager.java:949-968 | the item ends in the requested state; after selecting an exclusive item no other registered instance of its class is selected and every object outside that class collection (items of other classes, unfiled items of the class) is as it was; otherwise nothing else changes; views never change and no item becomes selected |
| Registry.ValuesRegistered | GrxUIonEclipse-project-0.9.8/src/com/generalrobotix/ui/GrxPluginManager.java:957-958 | every instance a class collection holds is a registered object of that class, so the unselect loop of `setSelectedItem` touches only registered instances of the item's class |
| Registry.SelectItemExclusive | GrxUIonEclipse-project-0.9.8/src/com/generalrobotix/ui/GrxPluginManager.java:955-961 | selecting an exclusive item unselects every other registered instance of its class |
| Registry.SelectItemShape | GrxUIonEclipse-project-0.9.8/src/com/generalrobotix/ui/GrxPluginManager.java:949-968 | selecting keeps every object's class, name, kind and focus |
| Registry.UnselectOneMore | GrxUIonEclipse-project-0.9.8/src/com/generalrobotix/ui/GrxPluginManager.java:984-987 | one more visited instance loses its selection when it is an item, and some visited item was selected exactly when it was or an earlier one was |
| Registry.ClearedIsUnselectedIn | GrxUIonEclipse-project-0.9.8/src/com/generalrobotix/ui/GrxPluginManager.java:980-990 | unselecting every visited instance, once all registered ones are visited, is clearing the selection |
| Registry.VisitNext | GrxUIonEclipse-project-0.9.8/src/com/generalrobotix/ui/GrxPluginManager.java:981-988 | the walk over the collections reaches a registered, not yet visited instance of the current class |
| Registry.VisitClassDone | GrxUIonEclipse-project-0.9.8/src/com/generalrobotix/ui/GrxPluginManager.java:981-988 | a collection walked to its end counts as done |
| Registry.VisitAllDone | GrxUIonEclipse-project-0.9.8/src/com/generalrobotix/ui/GrxPluginManager.java:981-988 | once every class is done, the walk has visited exactly the registered instances |
| Registry.RegisterKeepsConsistent | GrxUIonEclipse-project-0.9.8/src/com/generalrobotix/ui/GrxPluginManager.java:696 | filing an instance under a free name registers it and keeps every earlier registration |
| Registry.RemoveKeepsConsistent | GrxUIonEclipse-project-0.9.8/src/com/generalrobotix/ui/GrxPluginManager.java:753 | removing a name unregisters exactly the instance filed under it |
| Registry.RemovingNamesakeUnregisters | GrxUIonEclipse-project-0.9.8/src/com/generalrobotix/ui/GrxPluginManager.java:749-756 | removing an instance that was refused registration unregisters the registered instance of the same name |
| Registry.RenameKeepsConsistent | GrxUIonEclipse-project-0.9.8/src/com/generalrobotix/ui/GrxPluginManager.java:795-799 | renaming to a free name registers the item under it and keeps every other registration, except a namesake filed under the item's old name |
| Registry.RenamedEntriesAgree | GrxUIonEclipse-project-0.9.8/src/com/generalrobotix/ui/GrxPluginManager.java:795-799 | after the rename the registry and the store agree |
| Lifecycle.ControlStep | GrxUIonEclipse-project-0.9.8/src/com/generalrobotix/ui/GrxPluginManager.java:366-393 | SETUP becomes ACTIVE iff `setup` answers true; CLEANUP becomes SLEEP iff `cleanup` answers true; ACTIVE and SLEEP keep their state; no step goes back; a measured ACTIVE call sets `now` and folds it into `max` and `min` |
| Lifecycle.ControlStepKeepsBounds | GrxUIonEclipse-project-0.9.8/src/com/generalrobotix/ui/GrxPluginManager.java:375-382 | `min <= max` survives a step, and a measured call ends with `min <= now <= max` |
| Lifecycle.SetupActivatesOnlyWhenDone | GrxUIonEclipse-project-0.9.8/src/com/generalrobotix/ui/GrxPluginManager.java:368-371 | a view stays in SETUP until `setup` answers true, then it is ACTIVE |
| Lifecycle.ControlAll | GrxUIonEclipse-project-0.9.8/src/com/generalrobotix/ui/GrxPluginManager.java:364-398 | the control loop keeps views views, changes no item and keeps every class and name |
| Lifecycle.ControlAllStepsEachOnce | GrxUIonEclipse-project-0.9.8/src/com/generalrobotix/ui/GrxPluginManager.java:364-398 | on a list of distinct views each listed view is stepped once with its own answers, and every other object is untouched |
| Lifecycle.SleepAll | GrxUIonEclipse-project-0.9.8/src/com/generalrobotix/ui/GrxPluginManager.java:467-477 | after the stop-and-wait loop exits, every listed view sleeps and nothing else about any object has changed |
| Views.FilterViews | GrxUIonEclipse-project-0.9.8/src/com/generalrobotix/ui/GrxPluginManager.java:343-351 | the view list holds exactly the page's references that are GrxUI views |
| Views.OpenViews | GrxUIonEclipse-project-0.9.8/src/com/generalrobotix/ui/GrxPluginManager.java:328-353 | the view list is empty unless the GrxUI perspective is shown, and then holds exactly its GrxUI views |
| Views.FanoutTellsListedViews | GrxUIonEclipse-project-0.9.8/src/com/generalrobotix/ui/GrxPluginManager.java:290-293 | a notification pass tells exactly the listed views, each about the event being delivered, and a pass over two lists is the pass over the first followed by the pass over the second |
| Manager.WithClass | GrxUIonEclipse-project-0.9.8/src/com/generalrobotix/ui/GrxPluginManager.java:537-539 | registering a class adds a collection for it only when it has none, and that collection is empty; every other collection is kept |
| Manager.FirstFreeName | GrxUIonEclipse-project-0.9.8/src/com/generalrobotix/ui/GrxPluginManager.java:569-573 | in a class without a `base0` instance the generated name is `base0` |
| Manager.SecondFreeName | GrxUIonEclipse-project-0.9.8/src/com/generalrobotix/ui/GrxPluginManager.java:569-573 | when only `base0` is taken the generated name is `base1` |
| Manager.DefaultNameBaseOfC | GrxUIonEclipse-project-0.9.8/src/com/generalrobotix/ui/GrxPluginManager.java:567-568 | the stem for a class titled `C` is `newc` |
| Manager.TryAnother | GrxUIonEclipse-project-0.9.8/src/com/generalrobotix/ui/GrxPluginManager.java:569-573 | each round of the name loop finds one more distinct name in use, so the rounds are bounded by the collection's size |
| Manager.RefileKeepsInv | GrxUIonEclipse-project-0.9.8/src/com/generalrobotix/ui/GrxPluginManager.java:795-799 | a rename keeps the manager's invariant and registers the item |
| Manager.SameShapeKeepsKinds | GrxUIonEclipse-project-0.9.8/src/com/generalrobotix/ui/GrxPluginManager.java:83-84 | the view list, the selected-item list and the current mode keep pointing at objects of the right kind |
| Manager.SameShapeKeepsRefs | GrxUIonEclipse-project-0.9.8/src/com/generalrobotix/ui/GrxPluginManager.java:76-77 | a change of selection or view state keeps every held reference and the focus bookkeeping right |
| Manager.NameOrNewKeepsRefs | GrxUIonEclipse-project-0.9.8/src/com/generalrobotix/ui/GrxPluginManager.java:674 | a rename, or a new unfocused object, keeps every held reference right |
| Manager.ViewStepKeepsInv | GrxUIonEclipse-project-0.9.8/src/com/generalrobotix/ui/GrxPluginManager.java:364-398 | stepping or stopping views keeps the manager's invariant |
| Manager.ModeKeepsInv | GrxUIonEclipse-project-0.9.8/src/com/generalrobotix/ui/GrxPluginManager.java:483 | making an item the current mode keeps the manager's invariant |
| Manager.ModeSelection | GrxUIonEclipse-project-0.9.8/src/com/generalrobotix/ui/GrxPluginManager.java:479-483 | after a mode switch the mode item is selected and no other registered item is |
| Manager.ModeSleeps | GrxUIonEclipse-project-0.9.8/src/com/generalrobotix/ui/GrxPluginManager.java:467-482 | after a mode switch every listed view sleeps |
| Manager.ModeKeepsShape | GrxUIonEclipse-project-0.9.8/src/com/generalrobotix/ui/GrxPluginManager.java:467-482 | a mode switch keeps every object's class, name and kind |
| Manager.SelectedItems | GrxUIonEclipse-project-0.9.8/src/com/generalrobotix/ui/GrxPluginManager.java:262-269 | the rebuilt list holds every registered selected item, each once, and nothing else |
| Manager.Unfocused | GrxUIonEclipse-project-0.9.8/src/com/generalrobotix/ui/GrxPluginManager.java:223 | unfocusing the old item keeps every class, name and kind |
| Manager.UnfocusAgrees | GrxUIonEclipse-project-0.9.8/src/com/generalrobotix/ui/GrxPluginManager.java:223 | after the old item is unfocused no item is focused |
| Manager.FocusOnAgrees | GrxUIonEclipse-project-0.9.8/src/com/generalrobotix/ui/GrxPluginManager.java:224-225 | focusing the new item makes it the only focused item |
| Manager.FocusHandover | GrxUIonEclipse-project-0.9.8/src/com/generalrobotix/ui/GrxPluginManager.java:221-228 | the focus handover keeps the registry consistent and the focus bookkeeping agrees with the new focused item |
| Manager.SelectInCollection | GrxUIonEclipse-project-0.9.8/src/com/generalrobotix/ui/GrxPluginManager.java:955-967 | the loop over the class collection computes the selection change that `SelectItemEffect` describes |
| Manager.ViewListKeepsInv | GrxUIonEclipse-project-0.9.8/src/com/generalrobotix/ui/GrxPluginManager.java:328-353 | replacing the view list by a list of views keeps the manager's invariant |
| Manager.CollectViews | GrxUIonEclipse-project-0.9.8/src/com/generalrobotix/ui/GrxPluginManager.java:345-352 | the loop over the page's view references computes `FilterViews`: exactly the GrxUI views, in page order |
| Manager.TriedOneMore | GrxUIonEclipse-project-0.9.8/src/com/generalrobotix/ui/GrxPluginManager.java:569-573 | recording one more suffix found in use keeps the name loop's bookkeeping of distinct names in use |
| OrderedMaps.DropAt | GrxUIonEclipse-project-0.9.8/src/com/generalrobotix/ui/GrxPluginManager.java:753 | dropping one key from the order leaves the other keys, still each once |
| OrderedMaps.RemoveAfterPut | GrxUIonEclipse-project-0.9.8/src/com/generalrobotix/ui/GrxPluginManager.java:612-619 | removing a key that was just put into a collection without it gives back the collection as it was, order included |
| OrderedMaps.IndexOfAppended | GrxUIonEclipse-project-0.9.8/src/com/generalrobotix/ui/GrxPluginManager.java:612-619 | a name put into a collection that did not hold it is found last in the iteration order, which is where `remove` then looks for it |
| Manager.StepViews | GrxUIonEclipse-project-0.9.8/src/com/generalrobotix/ui/GrxPluginManager.java:364-398 | the `_control` loop computes `ControlAll` over the view list |
| Manager.SleepViews | GrxUIonEclipse-project-0.9.8/src/com/generalrobotix/ui/GrxPluginManager.java:467-477 | the stop-and-wait loop computes `SleepAll` over the view list |
| Manager.PluginManager.constructor | GrxUIonEclipse-project-0.9.8/src/com/generalrobotix/ui/GrxPluginManager.java:124-143 | a new manager holds no objects and no raised flag, and has registered the mode class |
| Manager.PluginManager.RegisterPlugin | GrxUIonEclipse-project-0.9.8/src/com/generalrobotix/ui/GrxPluginManager.java:535-555 | a non-plugin class yields null and changes nothing; a plugin class is returned and registered once with fresh metadata; a registered class keeps its collection and metadata |
| Manager.PluginManager.RegisterPluginWithVisibility | GrxUIonEclipse-project-0.9.8/src/com/generalrobotix/ui/GrxPluginManager.java:519-528 | after registering, the class's `visible` is the element's attribute, true when it is absent |
| Manager.PluginManager.RegisterPluginInstance | GrxUIonEclipse-project-0.9.8/src/com/generalrobotix/ui/GrxPluginManager.java:690-698 | false and no change when the name is taken; otherwise the instance is filed under its name, true is returned and every other entry is unchanged |
| Manager.PluginManager.GetItem | GrxUIonEclipse-project-0.9.8/src/com/generalrobotix/ui/GrxPluginManager.java:841-852 | found exactly when the name is filed, and then it is the filed instance; with null, the first instance in order |
| Manager.PluginManager.FindFreeName | GrxUIonEclipse-project-0.9.8/src/com/generalrobotix/ui/GrxPluginManager.java:569-573 | the name is `base + i` for the least i whose name is not filed, so it is fresh |
| Manager.PluginManager.SetSelectedItem | GrxUIonEclipse-project-0.9.8/src/com/generalrobotix/ui/GrxPluginManager.java:949-968 | null is a no-op; the item ends in the requested state; the flag is raised iff the state changes; selecting an exclusive item unselects its class (through `SelectItemEffect`) |
| Manager.PluginManager.ReselectItems | GrxUIonEclipse-project-0.9.8/src/com/generalrobotix/ui/GrxPluginManager.java:973-975 | the selection flag is raised |
| Manager.PluginManager.ClearItemSelection | GrxUIonEclipse-project-0.9.8/src/com/generalrobotix/ui/GrxPluginManager.java:980-990 | every registered item is unselected and nothing else changes; the flag is raised iff some registered item was selected |
| Manager.PluginManager.UpdateItemSelection | GrxUIonEclipse-project-0.9.8/src/com/generalrobotix/ui/GrxPluginManager.java:259-284 | the flag is cleared, the list holds exactly the registered selected items, each once, and each open view is told the new list |
| Manager.PluginManager.UpdateViewList | GrxUIonEclipse-project-0.9.8/src/com/generalrobotix/ui/GrxPluginManager.java:328-353 | the view list becomes the open GrxUI views |
| Manager.PluginManager.Deliver | GrxUIonEclipse-project-0.9.8/src/com/generalrobotix/ui/GrxPluginManager.java:290-293 | each listed view receives the event once, in order |
| Manager.PluginManager.FocusItem | GrxUIonEclipse-project-0.9.8/src/com/generalrobotix/ui/GrxPluginManager.java:221-228 | no change when the item already has the focus; otherwise the old item loses the focus and the new one gains it, and the flag is raised; null unfocuses the old item, raises no flag and throws `NullPointerException` |
| Manager.PluginManager.CreatePlugin | GrxUIonEclipse-project-0.9.8/src/com/generalrobotix/ui/GrxPluginManager.java:668-683 | null for a non-plugin class or a failed construction; otherwise the new instance is returned, filed only when its name was free, and every earlier registration is kept |
| Manager.PluginManager.Allocate | GrxUIonEclipse-project-0.9.8/src/com/generalrobotix/ui/GrxPluginManager.java:674 | a new object under a fresh reference, filed nowhere |
| Manager.PluginManager.AddItemNode | GrxUIonEclipse-project-0.9.8/src/com/generalrobotix/ui/GrxPluginManager.java:740-743 | the selection flag is raised when the item is selected; the list flag always |
| Manager.PluginManager.Announce | GrxUIonEclipse-project-0.9.8/src/com/generalrobotix/ui/GrxPluginManager.java:577-581 | the new item is selected, the rest of an exclusive class unselected, and both flags raised |
| Manager.PluginManager.CreateItem | GrxUIonEclipse-project-0.9.8/src/com/generalrobotix/ui/GrxPluginManager.java:564-583 | throws exactly for a nameless request on an unregistered class; otherwise an item is returned iff the class is a plugin and was instantiated; it is selected, named as asked or with the least free default name (and then registered), exclusivity holds, and both flags are raised; the new store is the old one plus the new item, selected as `setSelectedItem` selects it (`Filed`); the new item is filed iff its name was free in its class, and every earlier registration is kept |
| Manager.PluginManager.LoadItem | GrxUIonEclipse-project-0.9.8/src/com/generalrobotix/ui/GrxPluginManager.java:592-624 | no file: null and no change; throws exactly for a nameless all-dots file name; the item is returned whether or not it loaded; a loaded item is selected and announced, with the same effect on store and registry as `createItem` (`Filed`) and exclusivity holding; after a failed load the store is the old one plus the unselected item, the class collection loses whatever was filed under the name, exactly that namesake is unregistered (`RolledBack`), the selection flag is raised and the list flag is left as it was |
| Manager.PluginManager.LoadNamed | GrxUIonEclipse-project-0.9.8/src/com/generalrobotix/ui/GrxPluginManager.java:612-621 | the item reads its file: `Filed` and exclusivity, both flags raised; it does not: `RolledBack`, its name unfiled, the selection flag raised and the list flag untouched |
| Manager.PluginManager.CreateAnnounced | GrxUIonEclipse-project-0.9.8/src/com/generalrobotix/ui/GrxPluginManager.java:575-581 | `createPlugin` then selection and `_addItemNode`: a new selected item named as asked, `Filed` against the state before, exclusivity in its class, both flags raised; nothing changes in the store when no item is made |
| Manager.PluginManager.CreateRemoved | GrxUIonEclipse-project-0.9.8/src/com/generalrobotix/ui/GrxPluginManager.java:612-619 | `createPlugin` then `removeItem`: a new unselected item named as asked, its name unfiled in its class, `RolledBack` against the state before, the selection flag raised |
| Manager.PluginManager.AnnounceCreated | GrxUIonEclipse-project-0.9.8/src/com/generalrobotix/ui/GrxPluginManager.java:614-617 | announcing an item just created keeps every registration and gives `Filed` against the state before its creation, with exclusivity |
| Manager.PluginManager.RemoveUnloaded | GrxUIonEclipse-project-0.9.8/src/com/generalrobotix/ui/GrxPluginManager.java:619 | removing an item just created gives back the old store plus the unselected item, and `RolledBack` against the state before its creation |
| Manager.RollbackUnfiles | GrxUIonEclipse-project-0.9.8/src/com/generalrobotix/ui/GrxPluginManager.java:612-619 | whether or not the new item was filed, removing its name leaves the class collection as removing the name from the old one, and unregisters exactly the old namesake |
| Manager.PluginManager.CreateView | GrxUIonEclipse-project-0.9.8/src/com/generalrobotix/ui/GrxPluginManager.java:656-660 | throws exactly for a nameless request on an unregistered class; the new view is named as asked or after the class title; the store gains only the new asleep view; it is filed iff its name was free in its class, and every earlier registration is kept |
| Manager.PluginManager.RemoveItem | GrxUIonEclipse-project-0.9.8/src/com/generalrobotix/ui/GrxPluginManager.java:749-756 | the item is unselected, the entry under its name is dropped (unregistering exactly the instance filed there), and the selection flag is raised |
| Manager.PluginManager.Unfile | GrxUIonEclipse-project-0.9.8/src/com/generalrobotix/ui/GrxPluginManager.java:753 | the entry under the name is dropped and only its instance is unregistered |
| Manager.PluginManager.RenamePlugin | GrxUIonEclipse-project-0.9.8/src/com/generalrobotix/ui/GrxPluginManager.java:785-803 | true iff the new name is not filed, so a registered item renamed to its own name gets false; false or the same name changes nothing; otherwise the old key is gone, the item is filed and named under the new name, and the list flag is raised |
| Manager.PluginManager.Refile | GrxUIonEclipse-project-0.9.8/src/com/generalrobotix/ui/GrxPluginManager.java:796-798 | the item is renamed and moved to the new key, and stays registered |
| Manager.PluginManager.NotifyItemListChanged | GrxUIonEclipse-project-0.9.8/src/com/generalrobotix/ui/GrxPluginManager.java:289-295 | each view is told, then the list flag is cleared |
| Manager.PluginManager.NotifyItemPropertyChanged | GrxUIonEclipse-project-0.9.8/src/com/generalrobotix/ui/GrxPluginManager.java:300-307 | each view is told, then the property flag is cleared |
| Manager.PluginManager.ItemPropertyChanged | GrxUIonEclipse-project-0.9.8/src/com/generalrobotix/ui/GrxPluginManager.java:312-314 | the property flag is raised |
| Manager.PluginManager.NotifyFocusedItemChanged | GrxUIonEclipse-project-0.9.8/src/com/generalrobotix/ui/GrxPluginManager.java:317-324 | each view is told the focused item, then the focus flag is cleared |
| Manager.PluginManager.Control | GrxUIonEclipse-project-0.9.8/src/com/generalrobotix/ui/GrxPluginManager.java:358-399 | the timings take the new interval and its running extremes, the view list is refreshed, and the objects become `ControlAll` over it |
| Manager.PluginManager.Tick | GrxUIonEclipse-project-0.9.8/src/com/generalrobotix/ui/GrxPluginManager.java:197-208 | afterwards no flag is raised (views being taken not to call back into the manager); the notices sent are, in order, the selection, list, focus and property passes for exactly the flags that were raised; the control step runs only when the perspective is shown |
| Manager.PluginManager.NotifyPending | GrxUIonEclipse-project-0.9.8/src/com/generalrobotix/ui/GrxPluginManager.java:199-203 | the flags are drained in the fixed order |
| Manager.PluginManager.RefreshSelection | GrxUIonEclipse-project-0.9.8/src/com/generalrobotix/ui/GrxPluginManager.java:199-200 | the selection list is rebuilt and announced iff its flag was raised; the view list is refreshed |
| Manager.PluginManager.FlushNotices | GrxUIonEclipse-project-0.9.8/src/com/generalrobotix/ui/GrxPluginManager.java:201-203 | the list, focus and property passes run for exactly the raised flags, which end cleared |
| Manager.PluginManager.StopViews | GrxUIonEclipse-project-0.9.8/src/com/generalrobotix/ui/GrxPluginManager.java:467-477 | every listed view ends asleep |
| Manager.PluginManager.SwitchSelection | GrxUIonEclipse-project-0.9.8/src/com/generalrobotix/ui/GrxPluginManager.java:467-482 | the objects become `ModeObjects`: views asleep, selection cleared, mode item selected; the selection flag ends raised iff it was raised or clearing and selecting touch the selection of the store with the views asleep (`ModeRaisesSelection`: some registered item was selected, the mode item is registered, or it was not selected) |
| Manager.PluginManager.SelectOnly | GrxUIonEclipse-project-0.9.8/src/com/generalrobotix/ui/GrxPluginManager.java:479-482 | the store becomes the cleared selection with the mode item selected, and the selection flag is raised exactly as `ModeRaisesSelection` says |
| Manager.SleepKeepsSelection | GrxUIonEclipse-project-0.9.8/src/com/generalrobotix/ui/GrxPluginManager.java:467-483 | stopping the views changes no item, so whether the switch raises the selection flag is the same before and after they are stopped; the flag of `SwitchSelection` and `SetMode` is therefore decided by the store `setMode` was called on |
| Manager.PluginManager.EnterMode | GrxUIonEclipse-project-0.9.8/src/com/generalrobotix/ui/GrxPluginManager.java:483-486 | the mode item is current and the timings are zero |
| Manager.PluginManager.SetMode | GrxUIonEclipse-project-0.9.8/src/com/generalrobotix/ui/GrxPluginManager.java:460-491 | the current mode: nothing changes; otherwise the objects become `ModeObjects` (with `ModeSelection` and `ModeSleeps`), the mode is current, the timings are zero, and the selection flag ends raised iff it was raised or `ModeRaisesSelection` holds of the store with the views asleep (the same as of the store before, by `SleepKeepsSelection`) |

## Left out

- The Eclipse workbench: `isPerspectiveVisible` and the view references become the `Workbench` input. Views that are not yet initialised are taken to be objects already in the store.
- Timer plumbing: `Display.timerExec` rescheduling and the disposal checks. A tick is one call of `Tick`.
- The wall clock: `System.currentTimeMillis` becomes the `elapsed` input of `Control` and each view's measured time in `ViewResponse`. The manager's `double` timings are integers here.
- The busy wait in `setMode`: `view.stop()` and the `Thread.sleep` loop are modelled by their exit condition, that each listed view is asleep. Whether the wait ends is not modelled.
- `Manager.PluginManager.Tick`: view callbacks are taken not to call back into the manager. In the code, `control`, `itemListChanged`, `propertyChanged` and `focusedItemChanged` are plugin code that may call `setSelectedItem`, `focusedItem` or `itemPropertyChanged` and raise a flag during the tick, so "no flag is raised afterwards" holds only in the model.
- `GrxBaseView.stop`, `setup`, `control`, `cleanup` and the notification callbacks: they are given as answers, or recorded as notices. An exception thrown by a list, focus or property callback is not modelled. In the code it propagates out of the timer task before `display.timerExec` reschedules it, so no later tick ever runs and the flag being drained stays raised.
- The `GrxBaseItem` and `GrxBaseView` constructors and hooks: a new item is taken to start unselected and unfocused, and a new view asleep. `item.create()`, `item.load(f)` (given as `loaded`), `item.setURL(url)`, `restoreProperties()` and `restoreProject()` are not modelled.
- Reflection and class loading: `registerPlugin(String)`, `pluginLoader_.loadClass` and `GrxBasePlugin.getField` are not modelled. A class carries its title, directory, extension, kind and exclusivity as data.
- `loadItem`'s URL handling: `expandEnvVal`, `java.net.URL` and `File.isFile` are reduced to the `file` input. The plain file name stands for `f.getName()`.
- UI, I/O and middleware are not modelled: dialogs, menus and `Action`s, the clipboard, `grxuirc.xml` and project loading in the constructor, `start()`'s CORBA thread, and `shutdown`.
- The other getters and bulk operations (`getItem(String)`, `getSelectedItem`, `getActiveItemList`, `removeItems`, `removeAllItems`, `setVisibleItem`, `pasteItem`) are outside the modelled core.
- `renamePlugin` and `removeItem` on an object whose class has no collection cannot happen in this model, because every object's class is registered when it is created. The `m == null` branches are therefore not modelled.
- `OrderedHashMap` is not part of this model. It is taken to behave as `java.util.LinkedHashMap`.
- Iteration over `pluginMap_` follows `HashMap` order, which is not fixed. `ClearItemSelection` and `SelectedItems` take the classes in any order, and the selected-item list is specified as a set of distinct items, not as a sequence.
- `JavaText.ToLower`: lower-cases the ASCII letters only. Java's `toLowerCase()` uses the default locale and covers all of Unicode, so a title with letters such as `É`, or a title read under a Turkish locale (where `I` becomes a dotless `ı`), is lower-cased differently.
- `Manager.PluginManager.GetItem`: requires the class to be registered. For a class without a collection the code throws a `NullPointerException` at `pluginMap_.get(cls).values()`; both callers ask only for registered classes (the mode class registered in the constructor, and a class whose title lookup has just succeeded), so that exception is not modelled.
- `Manager.PluginManager.GetItem`: matches an instance by its name. The code compares `item.toString()`; `GrxBasePlugin.toString()` is not part of this model and is taken to return `getName()`.
- `Manager.PluginManager.GetItemTitle` is a plain lookup without a contract of its own.
