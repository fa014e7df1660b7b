/**
 * The image viewer window (image-viewer.js): a list of image paths and the
 * index of the one on screen. Loading replaces both; the previous and next
 * buttons move the index; a delete sends the current path to the main
 * process and, when the reply arrives, removes the path then on screen
 * from the list and closes the window when the list runs empty. The
 * displayed state (the counter and whether each button is disabled) is a
 * function of the two.
 */
module ImageViewer {
  import opened Wrappers

  /** `currentImages` and `currentIndex`. The index is not range-checked
      on load, so it is an unbounded integer here. */
  datatype Viewer = Viewer(images: seq<string>, index: int)

  predicate InRange(v: Viewer) {
    0 <= v.index < |v.images|
  }

  /** The `load-images` message: the list, and the start index or 0 when
      it is absent. A start index of 0 is falsy in JavaScript but maps to
      0 either way. */
  function Load(images: seq<string>, startIndex: Option<int>): (v: Viewer)
    ensures v.images == images
    ensures startIndex.None? ==> v.index == 0
    ensures startIndex.Some? ==> v.index == startIndex.value
  {
    Viewer(images, startIndex.GetOr(0))
  }

  /** The previous button. */
  function Prev(v: Viewer): Viewer {
    if v.index > 0 then Viewer(v.images, v.index - 1) else v
  }

  /** The next button. */
  function Next(v: Viewer): Viewer {
    if v.index < |v.images| - 1 then Viewer(v.images, v.index + 1) else v
  }

  /** What `displayCurrentImage` puts on screen: the path shown (absent
      when the index is off the list), the counter's two numbers, and
      whether each button is disabled. */
  datatype Screen = Screen(path: Option<string>, position: int, count: nat,
                           prevDisabled: bool, nextDisabled: bool)

  /** Nothing is drawn for an empty list. */
  function Display(v: Viewer): Option<Screen> {
    if |v.images| == 0 then None
    else Some(Screen(
      if InRange(v) then Some(v.images[v.index]) else None,
      v.index + 1, |v.images|,
      v.index == 0, v.index == |v.images| - 1))
  }

  /** The delete button, up to the `await`. An empty list is ignored; an
      index off the list makes `path.basename` throw before the dialog;
      and a declined dialog sends nothing. Otherwise the path on screen is
      captured and sent to the main process, and the handler waits. */
  function RequestDelete(v: Viewer, confirmed: bool): (r: Option<string>)
    ensures r.Some? ==> InRange(v) && r.value == v.images[v.index]
  {
    if |v.images| == 0 || !InRange(v) || !confirmed then None
    else Some(v.images[v.index])
  }

  /** How the request to delete the file ends: the main process reports
      success or failure, or the call itself throws. */
  datatype DeleteReply = Deleted | DeleteFailed | DeleteThrew

  /** The window after a reply: still open on some state, or closed. */
  datatype AfterDelete = Open(viewer: Viewer) | Closed

  /** `splice(i, 1)` as JavaScript reads `i`: a negative start counts back
      from the end (and stops at 0), and a start at or past the end
      removes nothing. */
  function Splice(images: seq<string>, i: int): seq<string> {
    var start := if i >= 0 then i else if |images| + i >= 0 then |images| + i else 0;
    if start < |images| then images[..start] + images[start + 1..] else images
  }

  /** The delete handler after the `await`: on success it splices at the
      index current at that moment, which is not necessarily the one the
      request was sent for. The window closes if the list is empty, and
      otherwise the index is pulled back onto the list if it fell off the
      end. A failure or a throw only raises an alert. */
  function DeleteReplied(v: Viewer, reply: DeleteReply): AfterDelete {
    if reply != Deleted then Open(v)
    else
      var rest := Splice(v.images, v.index);
      if |rest| == 0 then Closed
      else if v.index >= |rest| then Open(Viewer(rest, |rest| - 1))
      else Open(Viewer(rest, v.index))
  }

  /** Navigation never leaves the list and never changes it. */
  lemma NavigationKeepsRange(v: Viewer)
    requires InRange(v)
    ensures InRange(Prev(v)) && Prev(v).images == v.images
    ensures InRange(Next(v)) && Next(v).images == v.images
  {
  }

  /** Previous moves back by one exactly when there is an image before;
      next moves on by one exactly when there is an image after. */
  lemma NavigationSteps(v: Viewer)
    requires InRange(v)
    ensures Prev(v).index == v.index - 1 <==> v.index > 0
    ensures Prev(v).index != v.index - 1 ==> Prev(v) == v
    ensures Next(v).index == v.index + 1 <==> v.index < |v.images| - 1
    ensures Next(v).index != v.index + 1 ==> Next(v) == v
  {
  }

  /** Next undoes a previous step that moved, and previous undoes a next
      step that moved. */
  lemma PrevNextInverse(v: Viewer)
    requires InRange(v)
    ensures v.index > 0 ==> Next(Prev(v)) == v
    ensures v.index < |v.images| - 1 ==> Prev(Next(v)) == v
  {
  }

  /** The buttons are disabled exactly when pressing them would change
      nothing, and the counter shows a position between 1 and the count. */
  lemma ScreenMatchesNavigation(v: Viewer)
    requires InRange(v)
    ensures Display(v).Some?
    ensures Display(v).value.path == Some(v.images[v.index])
    ensures Display(v).value.prevDisabled <==> Prev(v) == v
    ensures Display(v).value.nextDisabled <==> Next(v) == v
    ensures 1 <= Display(v).value.position <= Display(v).value.count == |v.images|
  {
  }

  /** Loading without a start index shows the first image with the
      previous button disabled; the next button is disabled only for a
      single image. */
  lemma LoadShowsFirst(images: seq<string>)
    requires images != []
    ensures InRange(Load(images, None))
    ensures Display(Load(images, None)) ==
      Some(Screen(Some(images[0]), 1, |images|, true, |images| == 1))
  {
  }

  /** A start index off the list is kept as given: nothing is shown in
      its place, and the counter reads past the count. */
  lemma LoadDoesNotClamp(images: seq<string>, start: int)
    requires images != [] && start >= |images|
    ensures !InRange(Load(images, Some(start)))
    ensures Display(Load(images, Some(start))).value.path == None
    ensures Display(Load(images, Some(start))).value.position > |images|
  {
  }

  /** When the reply to a successful delete arrives, it removes exactly
      the path on screen at that moment and keeps the others in their
      order; the window closes when that was the last one, and otherwise
      the index lands on the list: on the path that followed the removed
      one, or on the new last path when the removed one was last. */
  lemma DeleteRemovesCurrent(v: Viewer)
    requires InRange(v)
    ensures DeleteReplied(v, Deleted) == Closed <==> |v.images| == 1
    ensures DeleteReplied(v, Deleted).Open? ==>
      var w := DeleteReplied(v, Deleted).viewer;
      && InRange(w)
      && |w.images| == |v.images| - 1
      && (forall k :: 0 <= k < v.index ==> w.images[k] == v.images[k])
      && (forall k :: v.index <= k < |w.images| ==> w.images[k] == v.images[k + 1])
      && multiset(w.images) + multiset{v.images[v.index]} == multiset(v.images)
      && (if v.index < |w.images| then w.index == v.index else w.index == |w.images| - 1)
  {
    var i := v.index;
    assert v.images == v.images[..i] + [v.images[i]] + v.images[i + 1..];
    assert multiset(v.images) == multiset(v.images[..i]) + multiset{v.images[i]} + multiset(v.images[i + 1..]);
  }

  /** Nothing is sent for an empty list, an index off the list or a
      declined dialog, and a failed or throwing delete changes nothing. */
  lemma DeleteOtherwiseUnchanged(v: Viewer, confirmed: bool, reply: DeleteReply)
    ensures RequestDelete(v, confirmed).None? <==> !InRange(v) || !confirmed
    ensures reply != Deleted ==> DeleteReplied(v, reply) == Open(v)
  {
  }

  /** The window between events: the viewer, and the paths of the delete
      requests still waiting for their reply, oldest first. */
  datatype Window = Window(viewer: Viewer, pending: seq<string>)

  /** What can happen in the window: a button press (or the key that
      presses it), or the reply to the pending request at `request`. */
  datatype Action =
    | PrevClick
    | NextClick
    | DeleteClick(confirmed: bool)
    | DeleteAnswer(request: nat, reply: DeleteReply)

  /** One event; `None` once the window has closed. A reply with no
      request waiting cannot arrive, so it changes nothing. */
  function Apply(w: Window, a: Action): Option<Window> {
    match a
    case PrevClick => Some(Window(Prev(w.viewer), w.pending))
    case NextClick => Some(Window(Next(w.viewer), w.pending))
    case DeleteClick(confirmed) =>
      (match RequestDelete(w.viewer, confirmed)
       case None => Some(w)
       case Some(p) => Some(Window(w.viewer, w.pending + [p])))
    case DeleteAnswer(r, reply) =>
      if r >= |w.pending| then Some(w)
      else
        var waiting := w.pending[..r] + w.pending[r + 1..];
        (match DeleteReplied(w.viewer, reply)
         case Closed => None
         case Open(v) => Some(Window(v, waiting)))
  }

  /** A run of events; once the window is closed nothing more happens. */
  function Replay(w: Window, actions: seq<Action>): Option<Window>
    decreases |actions|
  {
    if actions == [] then Some(w)
    else match Apply(w, actions[0])
      case None => None
      case Some(u) => Replay(u, actions[1..])
  }

  /** A delete whose reply arrives before any other event removes the
      path that was on screen when it was confirmed, as
      `DeleteRemovesCurrent` describes. */
  lemma DeleteUninterrupted(v: Viewer)
    requires InRange(v)
    ensures Replay(Window(v, []), [DeleteClick(true), DeleteAnswer(0, Deleted)]) ==
      match DeleteReplied(v, Deleted)
      case Closed => None
      case Open(u) => Some(Window(u, []))
  {
    var w := Window(v, [v.images[v.index]]);
    assert [] + [v.images[v.index]] == [v.images[v.index]];
    assert Apply(Window(v, []), DeleteClick(true)) == Some(w);
    assert [DeleteClick(true), DeleteAnswer(0, Deleted)][1..] == [DeleteAnswer(0, Deleted)];
    assert w.pending[..0] + w.pending[1..] == [];
  }

  /** A next press while the delete waits for its reply: the file on
      screen at the confirm is removed from disk, but the reply splices the
      path on screen now. The window is left showing the deleted file,
      and the other file, still on disk, is gone from the list. */
  lemma DeleteDuringNextRemovesOther(p0: string, p1: string)
    requires p0 != p1
    ensures RequestDelete(Viewer([p0, p1], 0), true) == Some(p0)
    ensures Replay(Window(Viewer([p0, p1], 0), []),
                   [DeleteClick(true), NextClick, DeleteAnswer(0, Deleted)])
      == Some(Window(Viewer([p0], 0), []))
  {
    var v := Viewer([p0, p1], 0);
    var actions := [DeleteClick(true), NextClick, DeleteAnswer(0, Deleted)];
    assert [] + [p0] == [p0];
    assert Apply(Window(v, []), actions[0]) == Some(Window(v, [p0]));
    assert Apply(Window(v, [p0]), actions[1]) == Some(Window(Viewer([p0, p1], 1), [p0]));
    assert [p0, p1][..1] + [p0, p1][2..] == [p0];
    assert Splice([p0, p1], 1) == [p0];
    assert DeleteReplied(Viewer([p0, p1], 1), Deleted) == Open(Viewer([p0], 0));
    assert [p0][..0] + [p0][1..] == [];
    assert Apply(Window(Viewer([p0, p1], 1), [p0]), actions[2]) == Some(Window(Viewer([p0], 0), []));
    assert actions[1..][1..] == [actions[2]];
    assert actions[1..][1..][1..] == [];
  }

  lemma ApplyKeepsRange(w: Window, a: Action)
    requires InRange(w.viewer)
    ensures Apply(w, a).Some? ==> InRange(Apply(w, a).value.viewer)
    ensures Apply(w, a).Some? ==> multiset(Apply(w, a).value.viewer.images) <= multiset(w.viewer.images)
  {
    if a.DeleteAnswer? && a.request < |w.pending| && a.reply == Deleted {
      DeleteRemovesCurrent(w.viewer);
    }
  }

  /** Whatever happens after a load onto the list, in whatever order the
      presses and the replies come, an open window keeps its index on the
      list, and its list only ever loses paths. */
  lemma {:induction false} ReplayKeepsRange(w: Window, actions: seq<Action>)
    requires InRange(w.viewer)
    ensures Replay(w, actions).Some? ==> InRange(Replay(w, actions).value.viewer)
    ensures Replay(w, actions).Some? ==>
      multiset(Replay(w, actions).value.viewer.images) <= multiset(w.viewer.images)
    decreases |actions|
  {
    if actions != [] {
      ApplyKeepsRange(w, actions[0]);
      if Apply(w, actions[0]).Some? {
        ReplayKeepsRange(Apply(w, actions[0]).value, actions[1..]);
      }
    }
  }
}
