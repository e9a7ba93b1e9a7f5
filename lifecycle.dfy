/** One `_control` step of a view: the lifecycle switch on `view_state_` and the
    running timing of `control` calls. */
module Lifecycle {
  import opened OrderedMaps
  import opened Plugins

  /** What a view answers during one control step, supplied from outside: whether
      `setup` returns true, whether `control` returns normally and how many
      milliseconds it took, and whether `cleanup` returns true. A callback that
      throws is caught per view, which reads here as `false` (or, for `control`,
      as not returning). */
  datatype ViewResponse = ViewResponse(setupDone: bool, controlReturned: bool, elapsed: int, cleanupDone: bool)

  function Max(a: int, b: int): int { if a < b then b else a }
  function Min(a: int, b: int): int { if a > b then b else a }

  /** Ordering of the lifecycle: SETUP before ACTIVE, CLEANUP before SLEEP. */
  function Rank(s: ViewState): nat {
    match s
    case Setup => 0
    case Active => 1
    case Cleanup => 2
    case Sleep => 3
  }

  /** The switch on `view_state_` for one view. */
  function ControlStep(v: Plugin, resp: ViewResponse): (w: Plugin)
    requires v.View?
    ensures w.View? && w.cls == v.cls && w.name == v.name
    ensures v.state == Setup ==> (w.state == Active <==> resp.setupDone) && w.state in {Setup, Active}
    ensures v.state == Cleanup ==> (w.state == Sleep <==> resp.cleanupDone) && w.state in {Cleanup, Sleep}
    ensures v.state == Active || v.state == Sleep ==> w.state == v.state
    ensures Rank(v.state) <= Rank(w.state)
    ensures v.state != Active || !resp.controlReturned ==> w.now == v.now && w.min == v.min && w.max == v.max
    ensures v.state == Active && resp.controlReturned ==>
      w.now == resp.elapsed && w.max == Max(v.max, resp.elapsed) && w.min == Min(v.min, resp.elapsed)
  {
    match v.state
    case Setup => if resp.setupDone then v.(state := Active) else v
    case Active =>
      if resp.controlReturned then
        var now := resp.elapsed;
        var max := if v.max < now then now else v.max;
        var min := if v.min > now then now else v.min;
        v.(now := now, max := max, min := min)
      else v
    case Cleanup => if resp.cleanupDone then v.(state := Sleep) else v
    case Sleep => v
  }

  /** The timing bounds `min <= max` survive a step, and an ACTIVE step that
      measured a call leaves `min <= now <= max`. */
  lemma ControlStepKeepsBounds(v: Plugin, resp: ViewResponse)
    requires v.View? && v.min <= v.max
    ensures var w := ControlStep(v, resp);
      && w.min <= w.max
      && (v.state == Active && resp.controlReturned ==> w.min <= w.now <= w.max)
  {
  }

  /** A view that stays in SETUP while `setup` answers false becomes ACTIVE on the
      first tick where it answers true, and not before. */
  lemma SetupActivatesOnlyWhenDone(v: Plugin, notYet: ViewResponse, done: ViewResponse)
    requires v.View? && v.state == Setup
    requires !notYet.setupDone && done.setupDone
    ensures ControlStep(v, notYet).state == Setup
    ensures ControlStep(ControlStep(v, notYet), done).state == Active
  {
  }

  /** The views refer to view objects of the store. */
  predicate AllViews(objects: map<Ref, Plugin>, views: seq<Ref>) {
    forall i :: 0 <= i < |views| ==> views[i] in objects && objects[views[i]].View?
  }

  /** The `_control` loop: each listed view is stepped in list order. */
  function ControlAll(objects: map<Ref, Plugin>, views: seq<Ref>, resp: Ref -> ViewResponse): (o: map<Ref, Plugin>)
    requires AllViews(objects, views)
    ensures o.Keys == objects.Keys
    ensures forall r :: r in objects && objects[r].View? ==> o[r].View?
    ensures forall r :: r in objects && objects[r].Item? ==> o[r] == objects[r]
    ensures forall r :: r in objects ==> o[r].cls == objects[r].cls && o[r].name == objects[r].name
    decreases |views|
  {
    if views == [] then objects
    else
      var r := views[0];
      ControlAll(objects[r := ControlStep(objects[r], resp(r))], views[1..], resp)
  }

  /** When the list names each view once, every listed view is stepped exactly
      once with its own response and every other object is untouched. */
  lemma {:induction false} ControlAllStepsEachOnce(objects: map<Ref, Plugin>, views: seq<Ref>, resp: Ref -> ViewResponse)
    requires AllViews(objects, views) && Distinct(views)
    ensures forall r :: r in objects ==>
      ControlAll(objects, views, resp)[r] ==
        if r in views then ControlStep(objects[r], resp(r)) else objects[r]
    decreases |views|
  {
    if views != [] {
      var r0 := views[0];
      var next := objects[r0 := ControlStep(objects[r0], resp(r0))];
      assert AllViews(next, views[1..]);
      ControlAllStepsEachOnce(next, views[1..], resp);
      assert forall r :: r in views <==> r == r0 || r in views[1..];
      assert r0 !in views[1..];
    }
  }

  /** The exit condition of the wait in `setMode`: each listed view has been
      stopped and is asleep; nothing else about any object changes. */
  function SleepAll(objects: map<Ref, Plugin>, views: seq<Ref>): (o: map<Ref, Plugin>)
    requires AllViews(objects, views)
    ensures o.Keys == objects.Keys
    ensures forall r :: r in objects ==>
      o[r] == if r in views then objects[r].(state := Sleep) else objects[r]
    ensures forall r :: r in objects && objects[r].Item? ==> o[r] == objects[r]
    decreases |views|
  {
    if views == [] then objects
    else
      var init := views[..|views| - 1];
      var v := views[|views| - 1];
      assert AllViews(objects, init);
      var o := SleepAll(objects, init);
      assert forall r :: r in views <==> r in init || r == v by {
        assert views == init + [v];
      }
      o[v := o[v].(state := Sleep)]
  }
}
