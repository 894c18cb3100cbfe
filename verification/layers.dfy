/**
 * The layer stack of the canvas editor: the objects on the canvas in paint order
 * (back to front), their layer metadata, the layer-panel projection, and the
 * panel's move / toggle / delete / rename operations, all keyed by layer id.
 *
 * Layer fields that may be unset on a canvas object (`layerId`, `layerType`,
 * `layerName`, `gifSource`) are strings whose empty value stands for every falsy
 * JavaScript value (`undefined`, `null`, `''`).
 */
module Layers {
  import opened Wrappers
  import Text

  /** The canvas library's own object type (`obj.type`). */
  datatype FabricKind = Textbox | Image | OtherKind(typeName: string)

  function KindName(k: FabricKind): string {
    match k
    case Textbox => "textbox"
    case Image => "image"
    case OtherKind(n) => n
  }

  /** Position and scale, in logical canvas units. */
  datatype Transform = Transform(left: real, top: real, scaleX: real, scaleY: real)

  /** One object on the canvas. `handle` is the object's identity (what `===`
      compares), distinct from its user-facing `layerId`. */
  datatype Layer = Layer(
    handle: nat,
    kind: FabricKind,
    layerId: string,
    layerType: string,
    layerName: string,
    visible: bool,
    gifSource: string,
    transform: Transform)

  const TextLayerName := "Text Layer"
  const ImageLayerName := "Image Layer"
  const GifLayerName := "GIF Layer"

  /** Layer type given to an object that has none: text for a text box, image for
      anything else. */
  function DefaultType(k: FabricKind): (t: string)
    ensures t == "text" <==> k == Textbox
    ensures t == "text" || t == "image"
  {
    if k == Textbox then "text" else "image"
  }

  /** Name shown for a layer without one: it follows the layer type, and a text box
      counts as text whatever its type says (unless it is a GIF). */
  function FallbackName(layerType: string, k: FabricKind): (n: string)
    ensures layerType == "gif" ==> n == GifLayerName
    ensures layerType != "gif" ==> (n == TextLayerName <==> layerType == "text" || k == Textbox)
    ensures n in {GifLayerName, TextLayerName, ImageLayerName}
  {
    if layerType == "gif" then GifLayerName
    else if layerType == "text" || k == Textbox then TextLayerName
    else ImageLayerName
  }

  /** Name `renameLayer` falls back to on a blank input: it looks only at the layer
      type, so a GIF layer falls back to the image name. */
  function RenameFallback(layerType: string): (n: string)
    ensures n == TextLayerName <==> layerType == "text"
    ensures n == TextLayerName || n == ImageLayerName
  {
    if layerType == "text" then TextLayerName else ImageLayerName
  }

  /** Has every piece of layer metadata. */
  predicate HasMetadata(obj: Layer) {
    obj.layerId != "" && obj.layerType != "" && obj.layerName != ""
  }

  /**
   * `ensureMetadata`: fills in the id (`"layer_"` followed by a caller-supplied
   * stamp, standing for `ensureMetadata`'s clock-and-random suffix), the type and the name, each only
   * where it is missing. Nothing that is already set is overwritten, and nothing but
   * the three metadata fields changes.
   */
  function EnsureMetadata(obj: Layer, stamp: string): (r: Layer)
    ensures HasMetadata(r)
    ensures obj.layerId != "" ==> r.layerId == obj.layerId
    ensures obj.layerId == "" ==> r.layerId == "layer_" + stamp
    ensures obj.layerType != "" ==> r.layerType == obj.layerType
    ensures obj.layerType == "" ==> r.layerType == DefaultType(obj.kind)
    ensures obj.layerName != "" ==> r.layerName == obj.layerName
    ensures obj.layerName == "" ==> r.layerName == FallbackName(r.layerType, obj.kind)
    ensures r.(layerId := obj.layerId, layerType := obj.layerType, layerName := obj.layerName) == obj
  {
    var id := if obj.layerId != "" then obj.layerId else "layer_" + stamp;
    var ty := if obj.layerType != "" then obj.layerType else DefaultType(obj.kind);
    var name := if obj.layerName != "" then obj.layerName else FallbackName(ty, obj.kind);
    obj.(layerId := id, layerType := ty, layerName := name)
  }

  /** Filling in metadata a second time, with any stamp, changes nothing. */
  lemma EnsureMetadataIdempotent(obj: Layer, s1: string, s2: string)
    ensures EnsureMetadata(EnsureMetadata(obj, s1), s2) == EnsureMetadata(obj, s1)
  {
  }

  // ---------------------------------------------------------------------------
  // Lookup by layer id

  /** Position of the first object whose layer id is `id` (`findLayerObject`). */
  function Find(objs: seq<Layer>, id: string): (r: Option<nat>)
    ensures r.Some? ==> r.value < |objs| && objs[r.value].layerId == id
    ensures r.Some? ==> forall k :: 0 <= k < r.value ==> objs[k].layerId != id
    ensures r.None? <==> forall k :: 0 <= k < |objs| ==> objs[k].layerId != id
  {
    if objs == [] then None
    else if objs[0].layerId == id then Some(0)
    else match Find(objs[1..], id)
      case None => None
      case Some(i) => Some(i + 1)
  }

  /** No two objects share a layer id. */
  predicate UniqueIds(objs: seq<Layer>) {
    forall i, j :: 0 <= i < j < |objs| ==> objs[i].layerId != objs[j].layerId
  }

  // ---------------------------------------------------------------------------
  // Layer operations

  /** `objs` with the entries at `i` and `i + 1` exchanged. */
  function Swap(objs: seq<Layer>, i: nat): (r: seq<Layer>)
    requires i + 1 < |objs|
    ensures |r| == |objs| && multiset(r) == multiset(objs)
    ensures r[i] == objs[i + 1] && r[i + 1] == objs[i]
    ensures forall k :: 0 <= k < |objs| && k != i && k != i + 1 ==> r[k] == objs[k]
  {
    var r := objs[..i] + [objs[i + 1], objs[i]] + objs[i + 2..];
    assert objs == objs[..i] + [objs[i], objs[i + 1]] + objs[i + 2..];
    r
  }

  /**
   * `moveLayer`: `"up"` brings the layer one step forward (towards the front),
   * `"down"` sends it one step backward; at either end, for any other direction,
   * and for an unknown id, the stack is unchanged. The stack is always a
   * permutation of the old one and at most two neighbouring places change.
   */
  function Move(objs: seq<Layer>, id: string, direction: string): (r: seq<Layer>)
    ensures |r| == |objs| && multiset(r) == multiset(objs)
    ensures Find(objs, id).None? ==> r == objs
    ensures direction != "up" && direction != "down" ==> r == objs
    ensures Find(objs, id).Some? && direction == "up" ==>
              var i := Find(objs, id).value;
              if i + 1 < |objs| then r == Swap(objs, i) else r == objs
    ensures Find(objs, id).Some? && direction == "down" ==>
              var i := Find(objs, id).value;
              if i > 0 then r == Swap(objs, i - 1) else r == objs
  {
    match Find(objs, id)
    case None => objs
    case Some(i) =>
      if direction == "up" && i + 1 < |objs| then Swap(objs, i)
      else if direction == "down" && i > 0 then Swap(objs, i - 1)
      else objs
  }

  /** The first match is at `i` when `i` matches and nothing before it does. */
  lemma FindAt(objs: seq<Layer>, id: string, i: nat)
    requires i < |objs| && objs[i].layerId == id
    requires forall k :: 0 <= k < i ==> objs[k].layerId != id
    ensures Find(objs, id) == Some(i)
  {
  }

  /** With unique ids, moving a layer up and then down again (or down then up)
      restores the stack, unless the first move was blocked at an end. */
  lemma MoveUpThenDown(objs: seq<Layer>, id: string)
    requires UniqueIds(objs)
    requires Find(objs, id).Some? && Find(objs, id).value + 1 < |objs|
    ensures Move(Move(objs, id, "up"), id, "down") == objs
  {
    var i := Find(objs, id).value;
    var up := Swap(objs, i);
    assert Move(objs, id, "up") == up;
    assert up[i + 1].layerId == id;
    forall k | 0 <= k < i + 1 ensures up[k].layerId != id {
      if k == i {
        assert up[k] == objs[i + 1];
      } else {
        assert up[k] == objs[k];
      }
    }
    FindAt(up, id, i + 1);
    assert Move(up, id, "down") == Swap(up, i);
    SwapTwice(objs, i);
  }

  /** Exchanging the same neighbours twice restores the stack. */
  lemma SwapTwice(objs: seq<Layer>, i: nat)
    requires i + 1 < |objs|
    ensures Swap(Swap(objs, i), i) == objs
  {
    var back := Swap(Swap(objs, i), i);
    assert forall k :: 0 <= k < |objs| ==> back[k] == objs[k];
  }

  lemma MoveDownThenUp(objs: seq<Layer>, id: string)
    requires UniqueIds(objs)
    requires Find(objs, id).Some? && Find(objs, id).value > 0
    ensures Move(Move(objs, id, "down"), id, "up") == objs
  {
    var i := Find(objs, id).value;
    var down := Swap(objs, i - 1);
    assert Move(objs, id, "down") == down;
    assert down[i - 1].layerId == id;
    FindAt(down, id, i - 1);
    assert Move(down, id, "up") == Swap(down, i - 1);
    SwapTwice(objs, i - 1);
  }

  /** `toggleLayer`: flips the visibility of the layer and changes nothing else. */
  function Toggle(objs: seq<Layer>, id: string): (r: seq<Layer>)
    ensures |r| == |objs|
    ensures Find(objs, id).None? ==> r == objs
    ensures Find(objs, id).Some? ==>
              var i := Find(objs, id).value;
              && r[i] == objs[i].(visible := !objs[i].visible)
              && forall k :: 0 <= k < |objs| && k != i ==> r[k] == objs[k]
  {
    match Find(objs, id)
    case None => objs
    case Some(i) => objs[i := objs[i].(visible := !objs[i].visible)]
  }

  /** Toggling twice restores the stack. */
  lemma ToggleTwice(objs: seq<Layer>, id: string)
    ensures Toggle(Toggle(objs, id), id) == objs
  {
    if Find(objs, id).Some? {
      var i := Find(objs, id).value;
      assert Find(Toggle(objs, id), id) == Some(i) by {
        assert forall k :: 0 <= k < i ==> Toggle(objs, id)[k] == objs[k];
      }
    }
  }

  /** `deleteLayer` on the stack: the first object with that id is removed and the
      others keep their order. */
  function Delete(objs: seq<Layer>, id: string): (r: seq<Layer>)
    ensures Find(objs, id).None? ==> r == objs
    ensures Find(objs, id).Some? ==>
              var i := Find(objs, id).value;
              |r| == |objs| - 1 && r == objs[..i] + objs[i + 1..]
    ensures UniqueIds(objs) ==> UniqueIds(r) && Find(r, id).None?
  {
    match Find(objs, id)
    case None => objs
    case Some(i) =>
      var r := objs[..i] + objs[i + 1..];
      assert forall k :: 0 <= k < |r| ==> r[k] == if k < i then objs[k] else objs[k + 1];
      r
  }

  /**
   * `renameLayer`: stores the trimmed name, or the fallback when it trims to
   * nothing, so the stored name is never empty. Only the name changes; an unknown
   * id changes nothing.
   */
  function Rename(objs: seq<Layer>, id: string, name: string): (r: seq<Layer>)
    ensures |r| == |objs|
    ensures Find(objs, id).None? ==> r == objs
    ensures Find(objs, id).Some? ==>
              var i := Find(objs, id).value;
              && r[i].layerName != ""
              && (!Text.Blank(Text.Js, name) ==> r[i].layerName == Text.Trim(Text.Js, name))
              && (Text.Blank(Text.Js, name) ==> r[i].layerName == RenameFallback(objs[i].layerType))
              && r[i].(layerName := objs[i].layerName) == objs[i]
              && forall k :: 0 <= k < |objs| && k != i ==> r[k] == objs[k]
  {
    match Find(objs, id)
    case None => objs
    case Some(i) =>
      var trimmed := Text.Trim(Text.Js, name);
      var stored := if trimmed != "" then trimmed else RenameFallback(objs[i].layerType);
      objs[i := objs[i].(layerName := stored)]
  }

  // ---------------------------------------------------------------------------
  // The layer panel

  /** One row of the layer panel. */
  datatype Entry = Entry(id: string, name: string, typeName: string, visible: bool, index: nat)

  /** The canvas objects that are layers: everything but the background image,
      in paint order. */
  function Shown(objs: seq<Layer>, background: Option<nat>): (r: seq<Layer>)
    ensures |r| <= |objs|
    ensures forall k :: 0 <= k < |r| ==> r[k] in objs && Some(r[k].handle) != background
    ensures forall o :: o in objs && Some(o.handle) != background ==> o in r
  {
    if objs == [] then []
    else if Some(objs[0].handle) == background then Shown(objs[1..], background)
    else [objs[0]] + Shown(objs[1..], background)
  }

  /** The panel row of a layer at paint position `index`. */
  function EntryOf(obj: Layer, index: nat): (e: Entry)
    ensures e.id == obj.layerId && e.visible == obj.visible && e.index == index
    ensures e.name != ""
    ensures obj.layerName != "" ==> e.name == obj.layerName
    ensures obj.layerType != "" ==> e.typeName == obj.layerType
  {
    Entry(
      obj.layerId,
      if obj.layerName != "" then obj.layerName else FallbackName(obj.layerType, obj.kind),
      if obj.layerType != "" then obj.layerType
      else if obj.kind == Textbox then "text" else KindName(obj.kind),
      obj.visible,
      index)
  }

  /** The layer id of the selected object, if any object is selected and it is not
      the background image (`active.layerId`, or null). */
  function ActiveId(objs: seq<Layer>, background: Option<nat>, active: Option<nat>): (r: Option<string>)
    ensures active.None? || active == background ==> r.None?
    ensures r.Some? ==> exists k :: 0 <= k < |objs| && Some(objs[k].handle) == active && objs[k].layerId == r.value
    ensures active.Some? && active != background && (exists k :: 0 <= k < |objs| && objs[k].handle == active.value)
            ==> r.Some?
  {
    if active.None? || active == background then None
    else if objs == [] then None
    else if objs[0].handle == active.value then Some(objs[0].layerId)
    else
      var r := ActiveId(objs[1..], background, active);
      assert r.Some? ==> exists k :: 0 <= k < |objs| && Some(objs[k].handle) == active && objs[k].layerId == r.value by {
        if r.Some? {
          var k :| 0 <= k < |objs[1..]| && Some(objs[1..][k].handle) == active && objs[1..][k].layerId == r.value;
          assert objs[k + 1] == objs[1..][k];
        }
      }
      assert (exists k :: 0 <= k < |objs| && objs[k].handle == active.value) ==>
             (exists k :: 0 <= k < |objs[1..]| && objs[1..][k].handle == active.value) by {
        if exists k :: 0 <= k < |objs| && objs[k].handle == active.value {
          var k :| 0 <= k < |objs| && objs[k].handle == active.value;
          assert k > 0 && objs[1..][k - 1] == objs[k];
        }
      }
      r
  }

  /**
   * `refreshLayers`: the panel lists the layers (never the background image) from
   * the front of the canvas to the back, each tagged with its paint position; the
   * active layer is the selected object's id, or none when nothing or only the
   * background is selected.
   */
  method Refresh(objs: seq<Layer>, background: Option<nat>, active: Option<nat>)
    returns (entries: seq<Entry>, activeId: Option<string>)
    ensures var shown := Shown(objs, background);
            && |entries| == |shown|
            && forall k :: 0 <= k < |entries| ==>
                 entries[k] == EntryOf(shown[|shown| - 1 - k], |shown| - 1 - k)
    ensures activeId == ActiveId(objs, background, active)
  {
    entries := Rows(Shown(objs, background));
    activeId := ActiveId(objs, background, active);
  }

  /** The panel rows of the shown layers, front first: row `k` is the layer painted
      at position `|shown| - 1 - k`. */
  method Rows(shown: seq<Layer>) returns (entries: seq<Entry>)
    ensures |entries| == |shown|
    ensures forall k :: 0 <= k < |entries| ==> entries[k] == EntryOf(shown[|shown| - 1 - k], |shown| - 1 - k)
  {
    entries := [];
    var i := 0;
    while i < |shown|
      invariant 0 <= i <= |shown|
      invariant |entries| == i
      invariant forall k :: 0 <= k < i ==> entries[k] == EntryOf(shown[i - 1 - k], i - 1 - k)
    {
      var before := entries;
      entries := [EntryOf(shown[i], i)] + before;
      assert forall k :: 0 < k <= i ==> entries[k] == before[k - 1];
      i := i + 1;
    }
  }
}
