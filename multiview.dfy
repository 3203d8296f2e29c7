/** The page state of js/script.js that the core operations update in place:
    the dictionary `videoStackOrder`, each video stack's `style.order` and
    overlay visibility, the list of attached stacks (`videoStacks`, the
    children of `mainContainer`), the edit button's label, the size
    selector's value, the position selector and the numbers the grid styles
    are computed from. DOM construction, events and styling are left out. */
module MultiView {
  import opened Wrappers
  import VideoIds
  import SlotOrder
  import Layout
  import Picker

  /** Whether the page is in edit mode, read off the edit button's label as
      `appendVideoStacksforIds` reads it. */
  function Editing(caption: string): (editing: bool)
    ensures caption == "Done" ==> editing
    ensures caption == "Edit" ==> !editing
  {
    caption != "Edit"
  }

  /** The label `toggleEditMode` writes: "Done" when the label was "Edit",
      "Edit" otherwise. */
  function Toggled(caption: string): (r: string)
    ensures r == "Edit" || r == "Done"
    ensures Editing(r) <==> !Editing(caption)
  {
    if caption == "Edit" then "Done" else "Edit"
  }

  /** Toggling twice gives back either of the two labels. */
  lemma ToggledTwice(caption: string)
    requires caption == "Edit" || caption == "Done"
    ensures Toggled(Toggled(caption)) == caption
  {
  }

  /** A video stack: the div holding one player and its overlay. */
  class VideoStack {
    const videoId: string
    /** `style.order`: the stack's position in the grid. */
    var order: int
    /** The overlay's `style.visibility` ("visible" or "hidden"). */
    var overlayVisible: bool

    constructor (id: string, slot: int, visible: bool)
      ensures videoId == id && order == slot && overlayVisible == visible
    {
      videoId := id;
      order := slot;
      overlayVisible := visible;
    }
  }

  /** The order fields of a sequence of stacks. */
  ghost function Orders(stacks: seq<VideoStack>): (ks: seq<int>)
    reads stacks
    ensures |ks| == |stacks|
    ensures forall j :: 0 <= j < |stacks| ==> ks[j] == stacks[j].order
  {
    if stacks == [] then [] else [stacks[0].order] + Orders(stacks[1..])
  }

  class Page {
    /** `videoStackOrder`: slot -> stack. */
    var stackOrder: map<int, VideoStack>
    /** `videoStacks`: the attached stacks in document order. */
    var attached: seq<VideoStack>
    /** `editButton.innerHTML`. */
    var editLabel: string
    /** `sizeSelect.value`. */
    var sizeValue: string
    /** The stack whose overlay holds the position selector, if any. */
    var pickerHost: VideoStack?
    /** The position selector's buttons. */
    var pickerButtons: seq<Picker.Button>
    /** The columns and rows last written to the grid-template styles. */
    var gridShape: Option<Layout.GridShape>
    /** The container height in pixels last written to its style. */
    var containerHeight: Option<nat>

    /** `stack` is stored in the dictionary under its own order. */
    ghost predicate Placed(stack: VideoStack)
      reads this`stackOrder, stack`order
    {
      stack.order in stackOrder && stackOrder[stack.order] == stack
    }

    /** The placement invariant: the keys are exactly 0 .. N-1, each stored
        stack's order field equals its key, N is the number of attached
        stacks, every attached stack is stored under its order (so the
        attached stacks are distinct and are exactly the stored ones), and the
        selector, if placed, sits on a stored stack. */
    ghost predicate Placement()
      reads this`stackOrder, this`attached, this`pickerHost, stackOrder.Values`order, attached`order, {pickerHost}`order
    {
      && SlotOrder.Dense(stackOrder)
      && (forall k :: k in stackOrder ==> stackOrder[k].order == k)
      && |attached| == |stackOrder|
      && (forall j :: 0 <= j < |attached| ==> Placed(attached[j]))
      && (forall i, j :: 0 <= i < j < |attached| ==> attached[i] != attached[j])
      && (pickerHost != null ==> Placed(pickerHost))
    }

    /** The page invariant: the placement invariant, a label that is "Edit"
        or "Done", and every overlay visible exactly in edit mode. */
    ghost predicate Valid()
      reads this`stackOrder, this`attached, this`pickerHost, this`editLabel, stackOrder.Values`order, attached`order, {pickerHost}`order, attached`overlayVisible
    {
      && Placement()
      && (editLabel == "Edit" || editLabel == "Done")
      && (forall j :: 0 <= j < |attached| ==> attached[j].overlayVisible == Editing(editLabel))
    }

    /** The page after `window.onload` has created the selector and set the
        size to "fitall", before any stack is added. */
    constructor ()
      ensures Valid()
      ensures stackOrder == map[] && attached == [] && editLabel == "Edit" && sizeValue == "fitall"
      ensures pickerHost == null && pickerButtons == []
      ensures gridShape == None && containerHeight == None
    {
      stackOrder := map[];
      attached := [];
      editLabel := "Edit";
      sizeValue := "fitall";
      pickerHost := null;
      pickerButtons := [];
      gridShape := None;
      containerHeight := None;
    }

    /** `appendVideoStacksforIds`: one new stack per ID, stored under and
        ordered by N .. N+k-1 in input order, N being the number of stacks
        attached before; overlays visible exactly in edit mode; then the new
        stacks are attached and, in "fitall" mode, the grid's columns and rows
        are recomputed. */
    method AppendVideoStacksForIds(ids: seq<string>) returns (newStacks: seq<VideoStack>)
      requires Valid()
      modifies this`stackOrder, this`attached, this`gridShape
      ensures Valid()
      ensures |newStacks| == |ids|
      ensures forall i :: 0 <= i < |ids| ==> fresh(newStacks[i]) && newStacks[i].videoId == ids[i]
      ensures attached == old(attached) + newStacks
      ensures stackOrder == SlotOrder.Append(old(stackOrder), old(|attached|), newStacks)
      ensures gridShape == if sizeValue == "fitall"
                           then Layout.StyleAfter(old(gridShape), Layout.Shape(|attached|, sizeValue))
                           else old(gridShape)
    {
      var before := attached;
      newStacks := CreateStacks(ids);
      attached := attached + newStacks;
      AppendKeepsValid(old(stackOrder), before, newStacks);
      if sizeValue == "fitall" {
        UpdateGridColAndRows();
      }
    }

    /** The `map` step of `appendVideoStacksforIds`: the i-th new stack shows
        the i-th ID, takes order N+i and is stored under N+i, N being the
        number of stacks attached before; its overlay is visible exactly in
        edit mode. Nothing is attached yet. */
    method CreateStacks(ids: seq<string>) returns (newStacks: seq<VideoStack>)
      modifies this`stackOrder
      ensures |newStacks| == |ids|
      ensures forall i :: 0 <= i < |ids| ==>
                (fresh(newStacks[i]) && newStacks[i].videoId == ids[i]
                 && newStacks[i].order == |attached| + i
                 && newStacks[i].overlayVisible == Editing(editLabel))
      ensures stackOrder == SlotOrder.Append(old(stackOrder), |attached|, newStacks)
    {
      var edit := Editing(editLabel);
      var n := |attached|;
      newStacks := [];
      var i := 0;
      while i < |ids|
        invariant 0 <= i <= |ids| && |newStacks| == i
        invariant forall j :: 0 <= j < i ==>
                    (fresh(newStacks[j]) && newStacks[j].videoId == ids[j]
                     && newStacks[j].order == n + j && newStacks[j].overlayVisible == edit)
        invariant stackOrder == SlotOrder.Append(old(stackOrder), n, newStacks)
      {
        var stack := new VideoStack(ids[i], n + i, edit);
        stackOrder := stackOrder[n + i := stack];
        SlotOrder.AppendSnoc(old(stackOrder), n, newStacks, stack);
        newStacks := newStacks + [stack];
        i := i + 1;
      }
    }

    /** Attaching stacks stored under N .. N+k-1 with their overlays in the
        page's mode, N being the number of stacks already stored, keeps the
        page invariant. */
    lemma AppendKeepsValid(m: map<int, VideoStack>, before: seq<VideoStack>, added: seq<VideoStack>)
      requires SlotOrder.Dense(m) && |before| == |m|
      requires forall k :: k in m ==> m[k].order == k
      requires forall j :: 0 <= j < |before| ==> before[j].order in m && m[before[j].order] == before[j]
      requires forall i, j :: 0 <= i < j < |before| ==> before[i] != before[j]
      requires pickerHost != null ==> pickerHost.order in m && m[pickerHost.order] == pickerHost
      requires forall i :: 0 <= i < |added| ==> added[i].order == |m| + i
      requires stackOrder == SlotOrder.Append(m, |m|, added)
      requires attached == before + added
      requires editLabel == "Edit" || editLabel == "Done"
      requires forall j :: 0 <= j < |before| ==> before[j].overlayVisible == Editing(editLabel)
      requires forall i :: 0 <= i < |added| ==> added[i].overlayVisible == Editing(editLabel)
      ensures Valid()
    {
      SlotOrder.AppendSlots(m, added);
      var n := |m|;
      if pickerHost != null {
        assert 0 <= pickerHost.order < |stackOrder|;
      }
      forall k | k in stackOrder ensures stackOrder[k].order == k {
        if k >= n {
          assert stackOrder[n + (k - n)] == added[k - n];
        }
      }
      forall j | 0 <= j < |attached|
        ensures Placed(attached[j]) && attached[j].overlayVisible == Editing(editLabel)
      {
        if j < n {
          assert attached[j] == before[j];
          var k := before[j].order;
          assert 0 <= k < |stackOrder|;
        } else {
          assert attached[j] == added[j - n];
          assert stackOrder[n + (j - n)] == added[j - n];
        }
      }
      AppendedDistinct(n, before, added);
    }

    /** Stacks with orders N, N+1, ... appended after distinct stacks with
        orders below N keep all stacks distinct. */
    lemma AppendedDistinct(n: int, before: seq<VideoStack>, added: seq<VideoStack>)
      requires forall j :: 0 <= j < |before| ==> before[j].order < n
      requires forall i, j :: 0 <= i < j < |before| ==> before[i] != before[j]
      requires forall i :: 0 <= i < |added| ==> added[i].order == n + i
      ensures forall i, j :: 0 <= i < j < |before + added| ==> (before + added)[i] != (before + added)[j]
    {
      var all := before + added;
      var b := |before|;
      forall i, j | 0 <= i < j < |all| ensures all[i] != all[j] {
        if j < b {
          assert all[i] == before[i] && all[j] == before[j];
        } else if i < b {
          assert all[i] == before[i] && all[j] == added[j - b];
        } else {
          assert all[i] == added[i - b] && all[j] == added[j - b];
        }
      }
    }

    /** Under the placement invariant the stored stacks are exactly the
        attached ones: N distinct attached stacks occupy N distinct keys of a
        dictionary with N keys, so every key holds an attached stack. */
    lemma StoredAreAttached()
      requires Placement()
      ensures forall k :: k in stackOrder ==> stackOrder[k] in attached
    {
      var ks := Orders(attached);
      forall i, j | 0 <= i < j < |ks| ensures ks[i] != ks[j] {
        assert stackOrder[ks[i]] == attached[i] && stackOrder[ks[j]] == attached[j];
      }
      SlotOrder.DistinctKeysCoverAll(stackOrder, ks);
      forall k | k in stackOrder ensures stackOrder[k] in attached {
        var j :| 0 <= j < |ks| && ks[j] == k;
        assert stackOrder[k] == attached[j];
      }
    }

    /** `swapGridElementOrders`: when the two slots differ and both are
        populated, their stacks exchange order fields and dictionary entries;
        otherwise nothing changes. */
    method SwapGridElementOrders(order1: int, order2: int)
      requires Valid()
      modifies this`stackOrder, stackOrder.Values`order
      ensures Valid()
      ensures stackOrder == SlotOrder.Swap(old(stackOrder), order1, order2)
      ensures SlotOrder.SwapApplies(old(stackOrder), order1, order2) ==>
                old(stackOrder[order1]).order == order2 && old(stackOrder[order2]).order == order1
    {
      if order1 == order2 {
        return;
      }
      if order1 in stackOrder && order2 in stackOrder {
        var stack1 := stackOrder[order1];
        var stack2 := stackOrder[order2];
        stack1.order := order2;
        stack2.order := order1;
        stackOrder := stackOrder[order1 := stack2][order2 := stack1];
        SlotOrder.SwapKeepsSlots(old(stackOrder), order1, order2);
        forall k | k in stackOrder ensures stackOrder[k].order == k {
          if k != order1 && k != order2 {
            assert stackOrder[k] == old(stackOrder)[k];
          }
        }
        forall j | 0 <= j < |attached| ensures Placed(attached[j]) {
          var x := attached[j];
          if x != stack1 && x != stack2 {
            assert old(stackOrder)[x.order] == x;
          }
        }
      }
    }

    /** `moveVideoSelector`: the selector moves into the given stack's
        overlay, its old buttons are removed and one button per attached stack
        is built, the one at the stack's own slot marked current. */
    method MoveVideoSelector(stack: VideoStack)
      requires Placement() && Placed(stack)
      modifies this`pickerHost, this`pickerButtons
      ensures Placement()
      ensures pickerHost == stack
      ensures pickerButtons == Picker.Buttons(|attached|, stack.order)
    {
      if pickerHost != stack {
        pickerHost := stack;
      }
      while pickerButtons != []
        invariant pickerHost == stack
        decreases |pickerButtons|
      {
        pickerButtons := pickerButtons[1..];
      }
      var i := 0;
      while i < |attached|
        invariant 0 <= i <= |attached| && pickerHost == stack
        invariant pickerButtons == Picker.Buttons(i, stack.order)
      {
        var iSwap := stack.order;
        pickerButtons := pickerButtons + [Picker.Button(!(i != stack.order), iSwap, i)];
        i := i + 1;
      }
    }

    /** A mouse move over a stack's overlay: the selector is rebuilt on that
        stack only when it is not already there. */
    method MouseMoveOverStack(stack: VideoStack)
      requires Placement() && Placed(stack)
      modifies this`pickerHost, this`pickerButtons
      ensures Placement()
      ensures pickerHost == stack
      ensures old(pickerHost) == stack ==> pickerButtons == old(pickerButtons)
      ensures old(pickerHost) != stack ==> pickerButtons == Picker.Buttons(|attached|, stack.order)
    {
      if pickerHost != stack {
        MoveVideoSelector(stack);
      }
    }

    /** A click on button `i` of the selector: the swap it captured, then the
        selector rebuilt for the same stack. When the button was built for the
        stack's current slot and the target slot is populated, the stack ends
        up in slot `to` and the selector is rebuilt with that slot current. */
    method ClickSelectorButton(i: nat)
      requires Valid() && i < |pickerButtons| && pickerHost != null
      modifies this`stackOrder, this`pickerHost, this`pickerButtons, stackOrder.Values`order
      ensures Valid()
      ensures stackOrder == SlotOrder.Swap(old(stackOrder), old(pickerButtons[i].from), old(pickerButtons[i].to))
      ensures pickerHost == old(pickerHost)
      ensures pickerButtons == Picker.Buttons(|attached|, pickerHost.order)
      ensures old(pickerButtons[i].from) == old(pickerHost.order) && old(pickerButtons[i].to) in old(stackOrder) ==>
                pickerHost.order == old(pickerButtons[i].to)
    {
      var button := pickerButtons[i];
      var host := pickerHost;
      SwapGridElementOrders(button.from, button.to);
      MoveVideoSelector(host);
    }

    /** `toggleEditMode`: the label flips between "Edit" and "Done"; on entering
        edit mode with stacks attached, the selector is opened on the first
        attached stack; every overlay becomes visible exactly in edit mode. */
    method ToggleEditMode()
      requires Valid()
      modifies this`editLabel, this`pickerHost, this`pickerButtons, stackOrder.Values`overlayVisible
      ensures Valid()
      ensures editLabel == Toggled(old(editLabel))
      ensures Editing(editLabel) && |attached| > 0 ==>
                pickerHost == attached[0] && pickerButtons == Picker.Buttons(|attached|, attached[0].order)
      ensures !(Editing(editLabel) && |attached| > 0) ==>
                pickerHost == old(pickerHost) && pickerButtons == old(pickerButtons)
    {
      var edit := editLabel == "Edit";
      editLabel := if edit then "Done" else "Edit";
      if edit && |attached| > 0 {
        MoveVideoSelector(attached[0]);
      }
      SetOverlaysVisible(edit);
    }

    /** The loop of `toggleEditMode` over the attached stacks: every overlay
        gets the given visibility. */
    method SetOverlaysVisible(visible: bool)
      requires Placement()
      modifies stackOrder.Values`overlayVisible
      ensures forall j :: 0 <= j < |attached| ==> attached[j].overlayVisible == visible
    {
      var j := 0;
      while j < |attached|
        invariant 0 <= j <= |attached|
        invariant forall k :: 0 <= k < j ==> attached[k].overlayVisible == visible
      {
        assert stackOrder[attached[j].order] == attached[j];
        attached[j].overlayVisible := visible;
        j := j + 1;
      }
    }

    /** `updateGridColAndRows`: the grid takes the columns and rows computed
        for the attached stacks and the size value; when that computation
        yields no valid number the styles keep their old values. */
    method UpdateGridColAndRows()
      modifies this`gridShape
      ensures gridShape == Layout.StyleAfter(old(gridShape), Layout.Shape(|attached|, sizeValue))
    {
      gridShape := Layout.StyleAfter(gridShape, Layout.Shape(|attached|, sizeValue));
    }

    /** `updateGridHeight` (its integer part): the container takes the height
        computed from the screen height; a NaN height leaves it as it was. */
    method UpdateGridHeight(screenHeight: nat)
      modifies this`containerHeight
      ensures containerHeight ==
                Layout.StyleAfter(old(containerHeight), Layout.ContainerHeight(|attached|, sizeValue, screenHeight))
    {
      containerHeight := Layout.StyleAfter(containerHeight, Layout.ContainerHeight(|attached|, sizeValue, screenHeight));
    }

    /** `updateGrid`: columns and rows, then the height. */
    method UpdateGrid(screenHeight: nat)
      modifies this`gridShape, this`containerHeight
      ensures gridShape == Layout.StyleAfter(old(gridShape), Layout.Shape(|attached|, sizeValue))
      ensures containerHeight ==
                Layout.StyleAfter(old(containerHeight), Layout.ContainerHeight(|attached|, sizeValue, screenHeight))
    {
      UpdateGridColAndRows();
      UpdateGridHeight(screenHeight);
    }

    /** A new value of the size selector, followed by `updateGrid` (its
        change handler). */
    method SelectSize(value: string, screenHeight: nat)
      modifies this`sizeValue, this`gridShape, this`containerHeight
      ensures sizeValue == value
      ensures gridShape == Layout.StyleAfter(old(gridShape), Layout.Shape(|attached|, value))
      ensures containerHeight ==
                Layout.StyleAfter(old(containerHeight), Layout.ContainerHeight(|attached|, value, screenHeight))
    {
      sizeValue := value;
      UpdateGrid(screenHeight);
    }

    /** `processUrlInput`: nothing for an empty input; otherwise the IDs
        extracted from it are appended as new stacks and the grid is updated. */
    method ProcessUrlInput(input: string, screenHeight: nat)
      requires Valid()
      modifies this`stackOrder, this`attached, this`gridShape, this`containerHeight
      ensures Valid()
      ensures input == "" ==> stackOrder == old(stackOrder) && attached == old(attached)
      ensures input == "" ==> gridShape == old(gridShape) && containerHeight == old(containerHeight)
      ensures input != "" ==>
                exists newStacks: seq<VideoStack> ::
                  && attached == old(attached) + newStacks
                  && stackOrder == SlotOrder.Append(old(stackOrder), old(|attached|), newStacks)
                  && |newStacks| == |VideoIds.ExtractVideoIds(input)|
                  && (forall i :: 0 <= i < |newStacks| ==> newStacks[i].videoId == VideoIds.ExtractVideoIds(input)[i])
      ensures input != "" ==> gridShape == Layout.StyleAfter(old(gridShape), Layout.Shape(|attached|, sizeValue))
      ensures input != "" ==>
                containerHeight == Layout.StyleAfter(old(containerHeight), Layout.ContainerHeight(|attached|, sizeValue, screenHeight))
    {
      if input == "" {
        return;
      }
      var ids := VideoIds.ExtractVideoIds(input);
      var newStacks := AppendVideoStacksForIds(ids);
      UpdateGrid(screenHeight);
    }

    /** The part of `processURL` after the query string is read: nothing when
        the `v` parameter is absent or empty, otherwise its IDs are appended. */
    method LoadVideoParam(v: Option<string>)
      requires Valid()
      modifies this`stackOrder, this`attached, this`gridShape
      ensures Valid()
      ensures v.None? || v.value == "" ==> stackOrder == old(stackOrder) && attached == old(attached)
      ensures v.Some? && v.value != "" ==>
                exists newStacks: seq<VideoStack> ::
                  && attached == old(attached) + newStacks
                  && stackOrder == SlotOrder.Append(old(stackOrder), old(|attached|), newStacks)
                  && |newStacks| == |VideoIds.ExtractVideoIds(v.value)|
                  && (forall i :: 0 <= i < |newStacks| ==> newStacks[i].videoId == VideoIds.ExtractVideoIds(v.value)[i])
      ensures gridShape == if v.Some? && v.value != "" && sizeValue == "fitall"
                           then Layout.StyleAfter(old(gridShape), Layout.Shape(|attached|, sizeValue))
                           else old(gridShape)
    {
      if v.None? || v.value == "" {
        return;
      }
      var ids := VideoIds.ExtractVideoIds(v.value);
      var newStacks := AppendVideoStacksForIds(ids);
    }
  }
}
