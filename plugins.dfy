/** Plugin classes, their registration metadata, and the plugin objects (items and
    views) that the manager creates and tracks. */
module Plugins {
  import opened JavaLang

  /** The identity of a plugin object: two references are the same object iff they
      are equal. */
  type Ref = nat

  /** Whether a class is an item class (`GrxBaseItem`) or a view class (`GrxBaseView`). */
  datatype Kind = ItemKind | ViewKind

  /** A loaded class. The static fields that registration reads by reflection are
      given here as data; `isPlugin` says whether the class is assignable to
      `GrxBasePlugin`, and `exclusive` is what `isExclusive()` answers for its
      instances. Two classes are equal when all these data are equal, whereas
      Java compares `Class` objects by identity; two distinct Java classes with
      the same data would be one class here. */
  datatype PluginClass = PluginClass(
    simpleName: string,
    isPlugin: bool,
    kind: Kind,
    titleField: Option<string>,
    defaultDirField: Option<string>,
    extensionField: Option<string>,
    exclusive: bool)

  /** `PluginInfo`: the metadata kept for each registered class. The cached menu is
      not modelled. */
  datatype PluginInfo = PluginInfo(title: string, lastDir: string, filter: Option<string>, visible: bool)

  /** The metadata `registerPlugin` records for a class seen for the first time:
      the title defaults to the simple class name, the directory is under the home
      path, the filter is `*.ext` when the class names an extension, and `visible`
      keeps Java's default `false`. */
  function NewPluginInfo(cls: PluginClass, homePath: string): (info: PluginInfo)
    ensures cls.titleField.None? ==> info.title == cls.simpleName
    ensures cls.titleField.Some? ==> info.title == cls.titleField.value
    ensures |info.lastDir| >= |homePath| && info.lastDir[..|homePath|] == homePath
    ensures info.filter.Some? <==> cls.extensionField.Some?
    ensures info.filter.Some? ==> info.filter.value == "*." + cls.extensionField.value
    ensures !info.visible
  {
    var title := match cls.titleField case Some(t) => t case None => cls.simpleName;
    var dir := match cls.defaultDirField case Some(d) => d case None => "";
    var filter := match cls.extensionField case Some(e) => Some("*." + e) case None => None;
    PluginInfo(title, homePath + dir, filter, false)
  }

  /** `GrxBaseView.view_state_`. */
  datatype ViewState = Setup | Active | Cleanup | Sleep

  /** A plugin object. Items carry their selection, exclusivity and focus; views carry
      their lifecycle state and the timing of their last `control` call. */
  datatype Plugin =
    | Item(cls: PluginClass, name: string, selected: bool, exclusive: bool, focused: bool)
    | View(cls: PluginClass, name: string, state: ViewState, now: int, min: int, max: int)

  /** An object is an item exactly when its class is an item class. */
  predicate WellKinded(p: Plugin) {
    p.Item? <==> p.cls.kind == ItemKind
  }

  /** What the plugin loader constructs for `cls` under `name`. The item and view
      constructors are not part of this model: a new item is taken to start
      unselected and unfocused, a new view asleep with zero timings. */
  function NewPlugin(cls: PluginClass, name: string): (p: Plugin)
    ensures WellKinded(p) && p.cls == cls && p.name == name
    ensures p.Item? ==> !p.selected && !p.focused && p.exclusive == cls.exclusive
    ensures p.View? ==> p.state == Sleep
  {
    match cls.kind
    case ItemKind => Item(cls, name, false, cls.exclusive, false)
    case ViewKind => View(cls, name, Sleep, 0, 0, 0)
  }
}
