/** What the manager sees of the Eclipse workbench, and the notifications it
    delivers to views. */
module Views {
  import opened JavaLang
  import opened Plugins
  import opened Lifecycle

  /** One query of the workbench: whether the active page of the active window
      shows the GrxUI perspective (false when there is no window or page), and the
      objects behind the page's view references, in the page's order. */
  datatype Workbench = Workbench(grxPerspectiveShown: bool, viewRefs: seq<Ref>)

  /** The four notifications views receive. */
  datatype Event =
    | SelectionChanged(items: seq<Ref>)
    | ListChanged
    | FocusChanged(focus: Option<Ref>)
    | PropertyChanged

  /** A notification delivered to one view. */
  datatype Notice = Notice(view: Ref, event: Event)

  /** The views of `refs` that are GrxUI views, in order. */
  function FilterViews(objects: map<Ref, Plugin>, refs: seq<Ref>): (vs: seq<Ref>)
    ensures AllViews(objects, vs)
    ensures forall r :: r in vs <==> r in refs && r in objects && objects[r].View?
    ensures |vs| <= |refs|
    decreases |refs|
  {
    if refs == [] then []
    else
      var rest := FilterViews(objects, refs[..|refs| - 1]);
      var r := refs[|refs| - 1];
      assert forall x :: x in refs <==> x in refs[..|refs| - 1] || x == r by {
        assert refs == refs[..|refs| - 1] + [r];
      }
      if r in objects && objects[r].View? then rest + [r] else rest
  }

  /** `updateViewList()`: the open GrxUI views, or none when the perspective is not
      shown. */
  function OpenViews(objects: map<Ref, Plugin>, wb: Workbench): (vs: seq<Ref>)
    ensures AllViews(objects, vs)
    ensures forall r :: r in vs <==>
      wb.grxPerspectiveShown && r in wb.viewRefs && r in objects && objects[r].View?
  {
    if wb.grxPerspectiveShown then FilterViews(objects, wb.viewRefs) else []
  }

  /** The same event delivered to each view in order. */
  function Fanout(views: seq<Ref>, e: Event): (ns: seq<Notice>)
    ensures |ns| == |views|
    ensures forall i :: 0 <= i < |views| ==> ns[i] == Notice(views[i], e)
  {
    seq(|views|, i requires 0 <= i < |views| => Notice(views[i], e))
  }

  /** A notification pass tells exactly the listed views, and only this event;
      passes over two lists one after the other are the pass over both. */
  lemma FanoutTellsListedViews(views: seq<Ref>, more: seq<Ref>, e: Event)
    ensures forall n :: n in Fanout(views, e) <==> n.view in views && n.event == e
    ensures Fanout(views + more, e) == Fanout(views, e) + Fanout(more, e)
  {
    var ns := Fanout(views, e);
    forall n: Notice | n.view in views && n.event == e
      ensures n in ns
    {
      var i :| 0 <= i < |views| && views[i] == n.view;
      assert ns[i] == n;
    }
  }
}
