/** The annotation editor's state and the transitions its event handlers make:
    point clicks, the inference reply that turns a point into a rectangle,
    selection toggling, deletion of the selection, and rectangle drags. */
module GroupEditor {
  import opened Shapes
  import opened RectDrag
  import ServerCoords

  /** No index occurs twice in s. */
  predicate NoDuplicates(s: seq<int>) {
    forall p, q :: 0 <= p < q < |s| ==> s[p] != s[q]
  }

  /** `s.filter((i) => i !== v)`. */
  function RemoveAll(s: seq<int>, v: int): (r: seq<int>)
    ensures forall x :: x in r <==> x in s && x != v
    ensures NoDuplicates(s) ==> NoDuplicates(r)
  {
    if s == [] then []
    else if s[0] == v then RemoveAll(s[1..], v)
    else
      var rest := RemoveAll(s[1..], v);
      assert NoDuplicates(s) ==> s[0] !in s[1..] && NoDuplicates(s[1..]) by {
        if NoDuplicates(s) {
          forall q | 0 <= q < |s[1..]| ensures s[1..][q] != s[0] { assert s[1..][q] == s[q + 1]; }
        }
      }
      [s[0]] + rest
  }

  /** Removing a value that does not occur changes nothing. */
  lemma {:induction false} RemoveAbsent(s: seq<int>, v: int)
    requires v !in s
    ensures RemoveAll(s, v) == s
  {
    if s != [] {
      RemoveAbsent(s[1..], v);
    }
  }

  /** Removing v from s followed by v is removing it from s. */
  lemma {:induction false} RemoveAllAppended(s: seq<int>, v: int)
    ensures RemoveAll(s + [v], v) == RemoveAll(s, v)
  {
    if s == [] {
      assert [] + [v] == [v];
    } else {
      assert (s + [v])[1..] == s[1..] + [v];
      RemoveAllAppended(s[1..], v);
    }
  }

  /** A click on a rectangle adds its index to the selection, or removes it if it was there. */
  function Toggle(selected: seq<int>, index: int): (r: seq<int>)
    ensures index in r <==> index !in selected
    ensures forall j :: j != index ==> (j in r <==> j in selected)
    ensures NoDuplicates(selected) ==> NoDuplicates(r)
  {
    if index in selected then RemoveAll(selected, index) else selected + [index]
  }

  /** Toggling the same index twice restores the selection as a set, and restores
      the very sequence when the index was not selected. */
  lemma {:induction false} ToggleTwice(selected: seq<int>, index: int)
    ensures forall j :: j in Toggle(Toggle(selected, index), index) <==> j in selected
    ensures index !in selected ==> Toggle(Toggle(selected, index), index) == selected
  {
    if index !in selected {
      RemoveAllAppended(selected, index);
      RemoveAbsent(selected, index);
    }
  }

  /** The Backspace/Delete loop: a copy of the annotations with every selected slot set to undefined. */
  method ClearSelected(annotations: seq<Option<Annotation>>, selected: seq<int>)
    returns (cleared: seq<Option<Annotation>>)
    requires forall i :: i in selected ==> 0 <= i < |annotations|
    ensures |cleared| == |annotations|
    ensures forall i :: 0 <= i < |annotations| && i in selected ==> cleared[i] == None
    ensures forall i :: 0 <= i < |annotations| && i !in selected ==> cleared[i] == annotations[i]
  {
    cleared := annotations;
    var k := 0;
    while k < |selected|
      invariant 0 <= k <= |selected|
      invariant |cleared| == |annotations|
      invariant forall i :: 0 <= i < |annotations| && i in selected[..k] ==> cleared[i] == None
      invariant forall i :: 0 <= i < |annotations| && i !in selected[..k] ==> cleared[i] == annotations[i]
    {
      assert selected[..k + 1] == selected[..k] + [selected[k]];
      assert selected[k] in selected;
      cleared := cleared[selected[k] := None];
      k := k + 1;
    }
    assert selected[..k] == selected;
  }

  /** The component's state. Annotations are never removed, only set to undefined,
      so an index once handed out stays valid. */
  class GroupUI {
    var annotations: seq<Option<Annotation>>
    var selected: seq<int>
    var dragActive: bool
    var clickRegistry: Option<ClickData>
    var cursorMoved: bool
    /** Whether a file has been chosen (`selectedFile` is defined). */
    var hasFile: bool
    /** The spinner shown while an inference request is outstanding. */
    var nothingIn: bool

    ghost predicate Valid()
      reads this
    {
      && (forall i :: i in selected ==> 0 <= i < |annotations|)
      && NoDuplicates(selected)
      && (dragActive <==> clickRegistry.Some?)
      && (clickRegistry.Some? ==> 0 <= clickRegistry.value.index < |annotations|)
    }

    constructor ()
      ensures Valid()
      ensures annotations == [] && selected == [] && !dragActive && clickRegistry == None
      ensures !cursorMoved && !hasFile && !nothingIn
    {
      annotations, selected := [], [];
      dragActive, clickRegistry, cursorMoved := false, None, false;
      hasFile, nothingIn := false, false;
    }

    /** A file was picked in the file dialog. */
    method HandleFileChange()
      requires Valid()
      modifies this`hasFile
      ensures Valid() && hasFile
    {
      hasFile := true;
    }

    /** Backspace or Delete sets every selected annotation to undefined and empties the selection. */
    method HandleKeyPress(key: string)
      requires Valid()
      modifies this`annotations, this`selected
      ensures Valid()
      ensures key != "Backspace" && key != "Delete" ==>
                annotations == old(annotations) && selected == old(selected)
      ensures key == "Backspace" || key == "Delete" ==>
                && |annotations| == |old(annotations)|
                && (forall i :: 0 <= i < |annotations| && i in old(selected) ==> annotations[i] == None)
                && (forall i :: 0 <= i < |annotations| && i !in old(selected) ==> annotations[i] == old(annotations)[i])
                && selected == []
    {
      if key == "Backspace" || key == "Delete" {
        annotations := ClearSelected(annotations, selected);
        selected := [];
      }
    }

    /** A click on the picture: with a file loaded and no drag under way, append a
        point and send it for inference; `pending` is the slot the reply will clear. */
    method HandleClick(clickPoint: Point) returns (pending: Option<nat>)
      requires Valid()
      modifies this`annotations, this`nothingIn
      ensures Valid()
      ensures old(hasFile) && !old(dragActive) ==>
                && annotations == old(annotations) + [Some(PointMark(clickPoint))]
                && nothingIn
                && pending == Some(|old(annotations)|)
      ensures !(old(hasFile) && !old(dragActive)) ==>
                annotations == old(annotations) && nothingIn == old(nothingIn) && pending == None
    {
      pending := None;
      if hasFile && !dragActive {
        pending := Some(|annotations|);
        annotations := annotations + [Some(PointMark(clickPoint))];
        nothingIn := true;
      }
    }

    /** The inference reply for the point in slot `clickIndex`. Any JSON reply clears that
        slot, appends `{ type: 'rectangle', ...data }` and hides the spinner; for a 400 or
        `{success: False}` the record has no coordinates. An uncaught server error has no
        JSON body, so the handler never runs: the point and the spinner stay. */
    method ReceiveInference(clickIndex: nat, reply: ServerCoords.Reply<Rect>)
      requires Valid()
      requires clickIndex < |annotations|
      modifies this`annotations, this`nothingIn
      ensures Valid()
      ensures reply.Ok? ==>
                annotations == old(annotations)[clickIndex := None] + [Some(RectangleMark(reply.value))] && !nothingIn
      ensures reply.BadRequest? ==>
                annotations == old(annotations)[clickIndex := None] + [Some(FailedReply(Some(reply.message)))]
                && !nothingIn
      ensures reply.Unsuccessful? ==>
                annotations == old(annotations)[clickIndex := None] + [Some(FailedReply(None))] && !nothingIn
      ensures reply.InternalError? ==> annotations == old(annotations) && nothingIn == old(nothingIn)
    {
      var record: Annotation;
      match reply {
        case InternalError => return;
        case Ok(box) => record := RectangleMark(box);
        case BadRequest(message) => record := FailedReply(Some(message));
        case Unsuccessful => record := FailedReply(None);
      }
      annotations := annotations[clickIndex := None] + [Some(record)];
      nothingIn := false;
    }

    /** A press on rectangle `index`: unless a drag is under way, classify the press and start one. */
    method HandleDragStartRect(click: Point, annotation: Rect, index: int)
      requires Valid()
      requires 0 <= index < |annotations|
      requires !dragActive ==> annotation.width != 0.0 && annotation.height != 0.0
      modifies this`dragActive, this`clickRegistry
      ensures Valid() && dragActive
      ensures old(dragActive) ==> clickRegistry == old(clickRegistry)
      ensures !old(dragActive) ==>
                clickRegistry == Some(ClickData(MapClickToClickType(click, annotation), click, annotation, index))
    {
      if !dragActive {
        clickRegistry := Some(ClickData(MapClickToClickType(click, annotation), click, annotation, index));
        dragActive := true;
      }
    }

    /** The pointer moved to `click`: during a drag, the dragged slot gets the
        recomputed rectangle and the cursor counts as moved; otherwise nothing changes.
        The update both `HandleDragRect` and `HandleMouseOverSvg` make. */
    method MovePointer(click: Point)
      requires Valid()
      modifies this`annotations, this`cursorMoved
      ensures Valid()
      ensures !dragActive ==> annotations == old(annotations) && cursorMoved == old(cursorMoved)
      ensures dragActive ==>
                && annotations == old(annotations)[clickRegistry.value.index :=
                     Some(RectangleMark(UpdatedAnnotation(click, clickRegistry.value)))]
                && cursorMoved
    {
      if dragActive {
        var data := clickRegistry.value;
        annotations := annotations[data.index := Some(RectangleMark(UpdatedAnnotation(click, data)))];
        cursorMoved := true;
      }
    }

    /** Pointer motion over a rectangle. */
    method HandleDragRect(click: Point)
      requires Valid()
      modifies this`annotations, this`cursorMoved
      ensures Valid()
      ensures !dragActive ==> annotations == old(annotations) && cursorMoved == old(cursorMoved)
      ensures dragActive ==>
                && annotations == old(annotations)[clickRegistry.value.index :=
                     Some(RectangleMark(UpdatedAnnotation(click, clickRegistry.value)))]
                && cursorMoved
    {
      MovePointer(click);
    }

    /** Pointer motion anywhere over the picture. */
    method HandleMouseOverSvg(click: Point)
      requires Valid()
      modifies this`annotations, this`cursorMoved
      ensures Valid()
      ensures !dragActive ==> annotations == old(annotations) && cursorMoved == old(cursorMoved)
      ensures dragActive ==>
                && annotations == old(annotations)[clickRegistry.value.index :=
                     Some(RectangleMark(UpdatedAnnotation(click, clickRegistry.value)))]
                && cursorMoved
    {
      MovePointer(click);
    }

    /** A click on rectangle `index` toggles it in the selection, unless the click ended a drag that moved. */
    method HandleClickRect(index: int)
      requires Valid()
      requires 0 <= index < |annotations|
      modifies this`selected
      ensures Valid()
      ensures selected == if cursorMoved then old(selected) else Toggle(old(selected), index)
    {
      if !cursorMoved {
        selected := Toggle(selected, index);
      }
    }

    /** Releasing the pointer ends the drag. */
    method HandleDragEndRect()
      requires Valid()
      modifies this`clickRegistry, this`dragActive
      ensures Valid() && clickRegistry == None && !dragActive
    {
      clickRegistry, dragActive := None, false;
    }

    /** The timer set when a moving drag ends fires and forgets the movement. */
    method CursorMovedTimeout()
      requires Valid()
      modifies this`cursorMoved
      ensures Valid() && !cursorMoved
    {
      cursorMoved := false;
    }

    /** A click that nothing else caught clears the selection, unless the parent disabled clearing. */
    method HandleClear(disableClear: bool)
      requires Valid()
      modifies this`selected
      ensures Valid()
      ensures selected == if disableClear then old(selected) else []
    {
      if !disableClear {
        selected := [];
      }
    }
  }
}
