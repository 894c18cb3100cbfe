/**
 * The canvas editor as a state machine: the object stack, the background image,
 * the selection and the GIF registry, with the editor's handlers as transitions.
 * The canvas library's rendering, the DOM and the decoders are not modelled; their
 * outcomes arrive as parameters (a decoded size, a load failure, a fresh stamp).
 */
module Canvas {
  import opened Wrappers
  import Layers
  import Fit
  import GifPlayer
  import Document

  /** The background image: its identity, source, placement, interactivity flags and tag. */
  datatype Background = Background(
    handle: nat,
    source: string,
    tag: string,
    placement: Fit.Placement,
    selectable: bool,
    evented: bool)

  /**
   * One editor instance: which canvas it draws on and whether that canvas is ready
   * (not disposed), the logical size, the objects in paint order, the selection,
   * the background, whether "reset background" is offered, the GIF registry, and
   * the next free object identity.
   */
  datatype Editor = Editor(
    canvasId: nat,
    ready: bool,
    baseWidth: int,
    baseHeight: int,
    objects: seq<Layers.Layer>,
    active: Option<nat>,
    background: Option<Background>,
    hasCustomBackground: bool,
    player: GifPlayer.Player,
    nextHandle: nat)

  function BackgroundHandle(ed: Editor): Option<nat> {
    if ed.background.Some? then Some(ed.background.value.handle) else None
  }

  /** Every object identity in use is below `nextHandle`. */
  predicate FreshHandles(ed: Editor) {
    && (forall k :: 0 <= k < |ed.objects| ==> ed.objects[k].handle < ed.nextHandle)
    && (ed.background.Some? ==> ed.background.value.handle < ed.nextHandle)
  }

  // ---------------------------------------------------------------------------
  // GIF playback on a layer

  /**
   * `startGifAnimation` seen from the canvas: the registry step, and, once the
   * off-screen buffer exists, the target object marked as a GIF layer with this
   * source. The object is the one at `i`.
   */
  function StartGif(ed: Editor, i: nat, source: string, env: GifPlayer.Env): (r: Editor)
    requires i < |ed.objects|
    ensures r.player == GifPlayer.Start(ed.player, ed.objects[i].layerId, source, env)
    ensures |r.objects| == |ed.objects|
    ensures forall k :: 0 <= k < |ed.objects| && k != i ==> r.objects[k] == ed.objects[k]
    ensures r.(objects := ed.objects, player := ed.player) == ed
    ensures env.canvasReady && source != "" && env.libraryAvailable && ed.objects[i].layerId != ""
            && env.contextAvailable ==>
              r.objects[i] == ed.objects[i].(layerType := "gif", gifSource := source)
    ensures ed.objects[i].layerType == "gif" && ed.objects[i].gifSource == source ==> r.objects == ed.objects
  {
    var obj := ed.objects[i];
    var player := GifPlayer.Start(ed.player, obj.layerId, source, env);
    if env.canvasReady && source != "" && env.libraryAvailable && obj.layerId != "" && env.contextAvailable then
      ed.(objects := ed.objects[i := obj.(layerType := "gif", gifSource := source)], player := player)
    else ed.(player := player)
  }

  /**
   * The `object:added` handler for the object just appended: metadata is filled
   * in, and a GIF layer with a source starts playing.
   */
  function OnAdded(ed: Editor, stamp: string, env: GifPlayer.Env): (r: Editor)
    requires |ed.objects| > 0
    ensures |r.objects| == |ed.objects|
    ensures forall k :: 0 <= k < |ed.objects| - 1 ==> r.objects[k] == ed.objects[k]
    ensures Layers.HasMetadata(r.objects[|r.objects| - 1])
    ensures r.objects[|r.objects| - 1].handle == ed.objects[|ed.objects| - 1].handle
    ensures r.objects[|r.objects| - 1] == Layers.EnsureMetadata(ed.objects[|ed.objects| - 1], stamp)
    ensures r.(objects := ed.objects, player := ed.player) == ed
  {
    var last := |ed.objects| - 1;
    var obj := Layers.EnsureMetadata(ed.objects[last], stamp);
    var ed1 := ed.(objects := ed.objects[last := obj]);
    if obj.layerType == "gif" && obj.gifSource != "" then StartGif(ed1, last, obj.gifSource, env)
    else ed1
  }

  /**
   * `addOverlayImageToCanvas`: nothing happens on a canvas that is not ready;
   * otherwise the picture is fitted into 60% of the canvas and centred, gets its
   * metadata, goes on top of the stack and becomes the selection.
   */
  function AddOverlay(ed: Editor, img: Layers.Layer, size: Fit.ImageSize, stamp: string, env: GifPlayer.Env)
    : (r: Editor)
    ensures !ed.ready ==> r == ed
    ensures ed.ready ==>
              && |r.objects| == |ed.objects| + 1
              && r.objects[..|ed.objects|] == ed.objects
              && r.active == Some(ed.nextHandle)
              && r.nextHandle == ed.nextHandle + 1
              && var top := r.objects[|ed.objects|];
                 && top.handle == ed.nextHandle
                 && Layers.HasMetadata(top)
                 && top.transform.scaleX == Fit.Overlay(ed.baseWidth, ed.baseHeight, size).scaleX
                 && top.transform.left == Fit.Overlay(ed.baseWidth, ed.baseHeight, size).left
                 && top.transform.top == Fit.Overlay(ed.baseWidth, ed.baseHeight, size).top
                 && top.transform.scaleY == Fit.Overlay(ed.baseWidth, ed.baseHeight, size).scaleY
                 && top.kind == img.kind && top.visible == img.visible && top.gifSource == img.gifSource
                 && (img.layerId != "" ==> top.layerId == img.layerId)
                 && (img.layerType != "" ==> top.layerType == img.layerType)
                 && (img.layerName != "" ==> top.layerName == img.layerName)
  {
    if !ed.ready then ed
    else
      var p := Fit.Overlay(ed.baseWidth, ed.baseHeight, size);
      var placed := img.(handle := ed.nextHandle, transform := Layers.Transform(p.left, p.top, p.scaleX, p.scaleY));
      var obj := Layers.EnsureMetadata(placed, stamp);
      var ed1 := ed.(objects := ed.objects + [obj], nextHandle := ed.nextHandle + 1);
      var ed2 := OnAdded(ed1, stamp, env);
      assert ed2.objects[..|ed.objects|] == ed.objects;
      ed2.(active := Some(ed.nextHandle))
  }

  /**
   * `handleGifSelect` once the preview picture has loaded: a GIF without a URL, or
   * a canvas that is not ready, is ignored; otherwise the picture is marked as a
   * GIF layer with the chosen URL, added as an overlay (whose `object:added`
   * handler starts playback) and started once more.
   */
  function AddGif(ed: Editor, img: Layers.Layer, size: Fit.ImageSize, url: string, stamp: string,
                  env: GifPlayer.Env): (r: Editor)
    ensures !ed.ready || url == "" ==> r == ed
    ensures ed.ready && url != "" ==>
              && |r.objects| == |ed.objects| + 1
              && r.objects[..|ed.objects|] == ed.objects
              && r.active == Some(ed.nextHandle)
              && var top := r.objects[|ed.objects|];
                 && top.handle == ed.nextHandle
                 && Layers.HasMetadata(top)
                 && top.layerType == "gif" && top.gifSource == url && top.layerName == Layers.GifLayerName
                 && top.transform.scaleX == Fit.Overlay(ed.baseWidth, ed.baseHeight, size).scaleX
    ensures ed.ready && url != "" && env.canvasReady && env.libraryAvailable && env.contextAvailable ==>
              Plays(r.player, r.objects[|ed.objects|])
  {
    if !ed.ready || url == "" then ed
    else
      var marked := img.(layerType := "gif", layerName := Layers.GifLayerName, gifSource := url);
      var added := AddOverlay(ed, marked, size, stamp, env);
      StartGif(added, |ed.objects|, url, env)
  }

  /**
   * Adding a GIF leaves exactly one playback record for the new layer, playing the
   * chosen URL, even though playback was started twice. With an exposing decoder the
   * record's request is in flight and is the layer's only download in flight; with
   * a decoder that hides its request the record holds none.
   */
  lemma AddGifHasOneSession(ed: Editor, img: Layers.Layer, size: Fit.ImageSize, url: string, stamp: string,
                            env: GifPlayer.Env)
    requires ed.ready && url != ""
    requires env.canvasReady && env.libraryAvailable && env.contextAvailable
    requires GifPlayer.Inv(ed.player)
    ensures var r := AddGif(ed, img, size, url, stamp, env);
            var id := r.objects[|ed.objects|].layerId;
            && r.objects[|ed.objects|].layerType == "gif"
            && r.objects[|ed.objects|].gifSource == url
            && id in r.player.sessions
            && r.player.sessions[id].source == url
            && GifPlayer.Inv(r.player)
            && (r.player.exposesRequest ==>
                  && r.player.sessions[id].xhr.Some?
                  && r.player.transports[r.player.sessions[id].xhr.value].status == GifPlayer.InFlight
                  && (forall h ::
                        (h in r.player.transports && r.player.transports[h].layer == id
                         && r.player.transports[h].status == GifPlayer.InFlight) ==> h == r.player.sessions[id].xhr.value))
            && (!r.player.exposesRequest ==> r.player.sessions[id].xhr.None?)
  {
    var marked := img.(layerType := "gif", layerName := Layers.GifLayerName, gifSource := url);
    var added := AddOverlay(ed, marked, size, stamp, env);
    var top := added.objects[|ed.objects|];
    assert top.layerType == "gif" && top.gifSource == url && top.layerId != "";
    GifPlayer.StartKeepsInv(ed.player, top.layerId, url, env);
    assert GifPlayer.Inv(added.player);
    GifPlayer.StartReplaces(added.player, top.layerId, url, env);
    GifPlayer.StartKeepsInv(added.player, top.layerId, url, env);
  }

  // ---------------------------------------------------------------------------
  // The layer panel's operations

  /**
   * `deleteLayer`: the layer leaves the stack, the selection is dropped, and the
   * `object:removed` handler stops playback when it was a GIF layer. An unknown
   * id changes nothing.
   */
  function DeleteLayer(ed: Editor, id: string): (r: Editor)
    ensures Layers.Find(ed.objects, id).None? ==> r == ed
    ensures Layers.Find(ed.objects, id).Some? ==>
              var obj := ed.objects[Layers.Find(ed.objects, id).value];
              && r.objects == Layers.Delete(ed.objects, id)
              && r.active.None?
              && (obj.layerType == "gif" ==> r.player == GifPlayer.Stop(ed.player, id))
              && (obj.layerType != "gif" ==> r.player == ed.player)
              && r.background == ed.background && r.nextHandle == ed.nextHandle
  {
    match Layers.Find(ed.objects, id)
    case None => ed
    case Some(i) =>
      var obj := ed.objects[i];
      var player := if obj.layerType == "gif" then GifPlayer.Stop(ed.player, obj.layerId) else ed.player;
      ed.(objects := Layers.Delete(ed.objects, id), active := None, player := player)
  }

  /** Deleting a GIF layer (ids unique) removes the layer and its playback record;
      the other layers and the other records stay. */
  lemma DeleteGifStopsPlayback(ed: Editor, id: string)
    requires Layers.UniqueIds(ed.objects) && id != ""
    requires Layers.Find(ed.objects, id).Some?
    requires ed.objects[Layers.Find(ed.objects, id).value].layerType == "gif"
    ensures var r := DeleteLayer(ed, id);
            && Layers.Find(r.objects, id).None?
            && id !in r.player.sessions
            && (forall other :: other != id && other in ed.player.sessions ==> other in r.player.sessions)
            && |r.objects| == |ed.objects| - 1
  {
  }

  /** `moveLayer`: acts on the object stack alone, reordering it; an unknown id
      changes nothing. */
  function MoveLayer(ed: Editor, id: string, direction: string): (r: Editor)
    ensures r.(objects := ed.objects) == ed
    ensures multiset(r.objects) == multiset(ed.objects)
    ensures Layers.Find(ed.objects, id).None? ==> r == ed
  {
    ed.(objects := Layers.Move(ed.objects, id, direction))
  }

  /** `toggleLayer`: acts on the object stack alone, flipping one visibility; an
      unknown id changes nothing. */
  function ToggleLayer(ed: Editor, id: string): (r: Editor)
    ensures r.(objects := ed.objects) == ed
    ensures |r.objects| == |ed.objects|
    ensures forall k :: 0 <= k < |ed.objects| ==> r.objects[k].(visible := ed.objects[k].visible) == ed.objects[k]
    ensures Layers.Find(ed.objects, id).None? ==> r == ed
  {
    ed.(objects := Layers.Toggle(ed.objects, id))
  }

  /** `renameLayer`: acts on the object stack alone, changing one name to a
      non-empty one; an unknown id changes nothing. */
  function RenameLayer(ed: Editor, id: string, name: string): (r: Editor)
    ensures r.(objects := ed.objects) == ed
    ensures |r.objects| == |ed.objects|
    ensures forall k :: 0 <= k < |ed.objects| ==>
              r.objects[k].(layerName := ed.objects[k].layerName) == ed.objects[k]
              && (r.objects[k] == ed.objects[k] || r.objects[k].layerName != "")
    ensures Layers.Find(ed.objects, id).None? ==> r == ed
  {
    ed.(objects := Layers.Rename(ed.objects, id, name))
  }

  /** The panel operations never change an object's identity, canvas type, layer
      id, layer type or GIF source, nor the set of objects (only `Move` reorders
      them), nor the stack's length. */
  lemma PanelOpsKeepIdentity(ed: Editor, id: string, direction: string, name: string)
    ensures multiset(MoveLayer(ed, id, direction).objects) == multiset(ed.objects)
    ensures |MoveLayer(ed, id, direction).objects| == |ed.objects|
    ensures |ToggleLayer(ed, id).objects| == |ed.objects| && |RenameLayer(ed, id, name).objects| == |ed.objects|
    ensures forall k :: 0 <= k < |ed.objects| ==>
              && SameIdentity(ToggleLayer(ed, id).objects[k], ed.objects[k])
              && SameIdentity(RenameLayer(ed, id, name).objects[k], ed.objects[k])
  {
  }

  /** Two objects agree on identity, canvas type, layer id and type, and GIF source. */
  predicate SameIdentity(a: Layers.Layer, b: Layers.Layer) {
    a.handle == b.handle && a.kind == b.kind && a.layerId == b.layerId && a.layerType == b.layerType
    && a.gifSource == b.gifSource
  }

  // ---------------------------------------------------------------------------
  // Background

  /** A background load in progress: the canvas it was started on, its source and tag. */
  datatype Pending = Pending(canvasId: nat, source: string, tag: string)

  /**
   * `applyBackgroundFromSource` up to its `await`: without a ready canvas or a
   * source it fails at once; otherwise the load starts, remembering the canvas.
   */
  function BeginBackground(ed: Editor, source: string, tag: string): (r: Option<Pending>)
    ensures r.None? <==> !ed.ready || source == ""
    ensures r.Some? ==> r.value == Pending(ed.canvasId, source, tag)
  {
    if !ed.ready || source == "" then None else Some(Pending(ed.canvasId, source, tag))
  }

  /** How a background load ends. */
  datatype Completion =
    /** The picture did not load: the promise rejects and nothing changes. */
    | LoadFailed
    /** The canvas it was meant for is gone: the result is dropped. */
    | Discarded
    | Applied(ed: Editor)

  /**
   * The rest of `applyBackgroundFromSource`, when the picture has loaded (or not):
   * a result for a canvas that has since been disposed is discarded; otherwise the
   * picture covers the canvas at its logical size *now*, is centred, can be neither
   * selected nor clicked, carries its tag, replaces the background in one step, and
   * "reset background" is offered exactly for a custom one. Nothing else changes.
   */
  function CompleteBackground(ed: Editor, pending: Pending, decoded: Option<Fit.ImageSize>): (c: Completion)
    ensures decoded.None? <==> c.LoadFailed?
    ensures decoded.Some? ==> (c.Discarded? <==> pending.canvasId != ed.canvasId || !ed.ready)
    ensures c.Applied? ==>
              && c.ed.background == Some(Background(ed.nextHandle, pending.source, pending.tag,
                   Fit.Cover(ed.baseWidth, ed.baseHeight, decoded.value), false, false))
              && c.ed.hasCustomBackground == (pending.tag == "custom")
              && c.ed.(background := ed.background, hasCustomBackground := ed.hasCustomBackground,
                       nextHandle := ed.nextHandle) == ed
              && c.ed.nextHandle == ed.nextHandle + 1
  {
    match decoded
    case None => LoadFailed
    case Some(size) =>
      // `applyBackgroundFromSource` also compares the canvas captured at the call with the one in
      // scope, but both are the same closure variable; what actually detects a
      // stale completion is the readiness test on the captured canvas.
      if pending.canvasId != ed.canvasId || !ed.ready then Discarded
      else
        var bg := Background(ed.nextHandle, pending.source, pending.tag,
                             Fit.Cover(ed.baseWidth, ed.baseHeight, size), false, false);
        Applied(ed.(background := Some(bg), hasCustomBackground := pending.tag == "custom",
                    nextHandle := ed.nextHandle + 1))
  }

  /** No canvas object carries the background's identity. */
  predicate BackgroundApart(ed: Editor) {
    ed.background.Some? ==> forall k :: 0 <= k < |ed.objects| ==> ed.objects[k].handle != ed.background.value.handle
  }

  /** When no object is the background, the panel shows every object. */
  lemma {:induction false} ShownAll(objs: seq<Layers.Layer>, background: Option<nat>)
    requires forall k :: 0 <= k < |objs| ==> Some(objs[k].handle) != background
    ensures Layers.Shown(objs, background) == objs
  {
    if objs != [] {
      ShownAll(objs[1..], background);
    }
  }

  /** A newly applied background is never listed as a layer and never becomes the
      active layer: every object is still listed. */
  lemma BackgroundNotALayer(ed: Editor, pending: Pending, size: Fit.ImageSize)
    requires FreshHandles(ed)
    requires CompleteBackground(ed, pending, Some(size)).Applied?
    ensures var r := CompleteBackground(ed, pending, Some(size)).ed;
            && BackgroundApart(r)
            && Layers.Shown(r.objects, BackgroundHandle(r)) == r.objects
            && Layers.ActiveId(r.objects, BackgroundHandle(r), BackgroundHandle(r)).None?
  {
    var r := CompleteBackground(ed, pending, Some(size)).ed;
    ShownAll(r.objects, BackgroundHandle(r));
  }

  /**
   * Two loads on the same canvas: whichever *completes* last is displayed, even
   * when it was requested first, since completions are only checked against the
   * canvas and not against later requests.
   */
  lemma LastCompletionWins(ed: Editor, first: string, second: string, a: Fit.ImageSize, b: Fit.ImageSize)
    requires ed.ready && first != "" && second != ""
    ensures var pa := BeginBackground(ed, first, "custom").value;
            var pb := BeginBackground(ed, second, "custom").value;
            var afterB := CompleteBackground(ed, pb, Some(b));
            && afterB.Applied?
            && CompleteBackground(afterB.ed, pa, Some(a)).Applied?
            && CompleteBackground(afterB.ed, pa, Some(a)).ed.background.value.source == first
  {
  }

  /** `resetBackgroundImage`: with a ready canvas and a template picture, starts
      loading that picture as the template background; otherwise does nothing. */
  function ResetBackground(ed: Editor, templateUrl: string): (r: Option<Pending>)
    ensures r.None? <==> !ed.ready || templateUrl == ""
    ensures r.Some? ==> r.value.source == templateUrl && r.value.tag == "template"
  {
    if !ed.ready || templateUrl == "" then None else BeginBackground(ed, templateUrl, "template")
  }

  /** Resetting after a custom background was applied brings back the template
      picture, tagged as such, and withdraws the reset offer. */
  lemma ResetRestoresTemplate(ed: Editor, custom: string, templateUrl: string, c: Fit.ImageSize, t: Fit.ImageSize)
    requires ed.ready && custom != "" && templateUrl != ""
    ensures var applied := CompleteBackground(ed, BeginBackground(ed, custom, "custom").value, Some(c));
            && applied.Applied? && applied.ed.hasCustomBackground
            && var reset := CompleteBackground(applied.ed, ResetBackground(applied.ed, templateUrl).value, Some(t));
               && reset.Applied?
               && reset.ed.background.value.source == templateUrl
               && reset.ed.background.value.tag == "template"
               && !reset.ed.hasCustomBackground
  {
  }

  // ---------------------------------------------------------------------------
  // Save and load

  /** The template and the design as `save` sees them; 0 and "" stand for absent. */
  datatype TemplateInfo = TemplateInfo(id: int, name: string, width: int, height: int, imageUrl: string)
  datatype DesignInfo = DesignInfo(title: string, templateId: int)

  /** What `save` hands to the page. */
  datatype SavePayload = SavePayload(title: string, templateId: int, doc: Document.Doc)

  const DefaultWidth := 1200
  const DefaultHeight := 1800

  /** The saved background descriptor. */
  function SavedBackground(ed: Editor): Option<Document.SavedBackground> {
    if ed.background.Some? then
      var bg := ed.background.value;
      Some(Document.SavedBackground(bg.source, bg.tag, bg.placement, bg.selectable, bg.evented))
    else None
  }

  /**
   * `save`: snapshots the objects and the background, stamps the logical size
   * (falling back to the template's, then 1200x1800) and the size key, and picks the
   * title (the design's, else "<template name or Invitation> - <suffix>") and
   * template id (the template's, else the design's).
   */
  function Save(ed: Editor, sizeKey: string, template: Option<TemplateInfo>, design: Option<DesignInfo>,
                suffix: string): (r: SavePayload)
    ensures r.doc.objects == Document.Snapshot(ed.objects)
    ensures r.doc.background == SavedBackground(ed)
    ensures r.doc.meta.Some? && r.doc.meta.value.sizeKey == sizeKey
    ensures r.doc.width == r.doc.meta.value.baseWidth && r.doc.height == r.doc.meta.value.baseHeight
    ensures ed.baseWidth != 0 ==> r.doc.width == ed.baseWidth
    ensures ed.baseHeight != 0 ==> r.doc.height == ed.baseHeight
    ensures r.doc.width != 0 && r.doc.height != 0
    ensures ed.baseWidth == 0 ==>
              r.doc.width == (if template.Some? && template.value.width != 0 then template.value.width else DefaultWidth)
    ensures ed.baseHeight == 0 ==>
              r.doc.height == (if template.Some? && template.value.height != 0 then template.value.height else DefaultHeight)
    ensures design.Some? && design.value.title != "" ==> r.title == design.value.title
    ensures !(design.Some? && design.value.title != "") ==>
              r.title == (if template.Some? && template.value.name != "" then template.value.name else "Invitation")
                         + " - " + suffix
    ensures r.title != ""
    ensures template.Some? && template.value.id != 0 ==> r.templateId == template.value.id
    ensures !(template.Some? && template.value.id != 0) ==>
              r.templateId == (if design.Some? then design.value.templateId else 0)
  {
    var tw := if template.Some? then template.value.width else 0;
    var th := if template.Some? then template.value.height else 0;
    var width := if ed.baseWidth != 0 then ed.baseWidth else if tw != 0 then tw else DefaultWidth;
    var height := if ed.baseHeight != 0 then ed.baseHeight else if th != 0 then th else DefaultHeight;
    var snapshot := Document.Doc(0, 0, None, Document.Snapshot(ed.objects), SavedBackground(ed));
    var name := if template.Some? && template.value.name != "" then template.value.name else "Invitation";
    var title := if design.Some? && design.value.title != "" then design.value.title else name + " - " + suffix;
    var tid := if template.Some? && template.value.id != 0 then template.value.id
               else if design.Some? then design.value.templateId else 0;
    SavePayload(title, tid, Document.WithSize(snapshot, width, height, sizeKey))
  }

  /** A GIF layer with an id and a source: one whose playback the editor starts. */
  predicate Animated(obj: Layers.Layer) {
    obj.layerType == "gif" && obj.gifSource != "" && obj.layerId != ""
  }

  /** The registry holds a record for the layer, playing the layer's source. */
  predicate Plays(p: GifPlayer.Player, obj: Layers.Layer) {
    obj.layerId in p.sessions && p.sessions[obj.layerId].source == obj.gifSource
  }

  /** Starts playback for every GIF layer with a source, front-most last, as the
      load callback does. */
  function StartAll(ed: Editor, from: nat, env: GifPlayer.Env): (r: Editor)
    requires from <= |ed.objects|
    ensures r.(player := ed.player) == ed
    decreases |ed.objects| - from
  {
    if from == |ed.objects| then ed
    else
      var obj := ed.objects[from];
      var ed1 := if obj.layerType == "gif" && obj.gifSource != "" then StartGif(ed, from, obj.gifSource, env) else ed;
      StartAll(ed1, from + 1, env)
  }

  /** Every GIF layer with a source from `from` on that playback can start for has a
      playback record for that source after `StartAll` (ids unique). */
  lemma {:induction false} StartAllCovers(ed: Editor, from: nat, env: GifPlayer.Env)
    requires from <= |ed.objects|
    requires Layers.UniqueIds(ed.objects)
    requires env.canvasReady && env.libraryAvailable && env.contextAvailable
    requires forall k :: 0 <= k < from && Animated(ed.objects[k]) ==> Plays(ed.player, ed.objects[k])
    ensures forall k :: 0 <= k < |ed.objects| && Animated(ed.objects[k]) ==>
              Plays(StartAll(ed, from, env).player, ed.objects[k])
    decreases |ed.objects| - from
  {
    if from < |ed.objects| {
      var obj := ed.objects[from];
      var ed1 := if obj.layerType == "gif" && obj.gifSource != "" then StartGif(ed, from, obj.gifSource, env) else ed;
      assert ed1.objects == ed.objects;
      forall k | 0 <= k < from + 1 && Animated(ed.objects[k])
        ensures Plays(ed1.player, ed.objects[k])
      {
        if k < from && obj.layerType == "gif" && obj.gifSource != "" {
          assert ed.objects[k].layerId != obj.layerId;
        }
      }
      StartAllCovers(ed1, from + 1, env);
    }
  }

  /** A saved background brought back as the canvas background with identity `handle`. */
  function RestoreBackground(saved: Option<Document.SavedBackground>, handle: nat): Option<Background> {
    if saved.Some? then
      var b := saved.value;
      Some(Background(handle, b.source, b.tag, b.placement, b.selectable, b.evented))
    else None
  }

  /** Objects after the `object:added` handler's metadata fill, each with its own
      stamp. */
  function Filled(objs: seq<Layers.Layer>, stamps: seq<string>): (r: seq<Layers.Layer>)
    requires |stamps| == |objs|
    ensures |r| == |objs|
    ensures forall k :: 0 <= k < |objs| ==> r[k] == Layers.EnsureMetadata(objs[k], stamps[k])
  {
    if objs == [] then [] else [Layers.EnsureMetadata(objs[0], stamps[0])] + Filled(objs[1..], stamps[1..])
  }

  /** The canvas library inserting one saved object on top of the stack under the
      next identity, followed by the `object:added` handler. */
  function AddOneSaved(ed: Editor, saved: Document.SavedObject, stamp: string, env: GifPlayer.Env): (r: Editor)
    ensures r.objects == ed.objects + [Layers.EnsureMetadata(Document.Revive(saved, ed.nextHandle), stamp)]
    ensures r.nextHandle == ed.nextHandle + 1
    ensures r.(objects := ed.objects, player := ed.player, nextHandle := ed.nextHandle) == ed
  {
    var ed1 := ed.(objects := ed.objects + [Document.Revive(saved, ed.nextHandle)], nextHandle := ed.nextHandle + 1);
    var r := OnAdded(ed1, stamp, env);
    assert r.objects[..|ed.objects|] == ed.objects;
    r
  }

  /**
   * The canvas library inserting saved objects one by one on top of the stack:
   * each gets the next identity and goes through the `object:added` handler with
   * its own stamp, which fills in its metadata and starts a GIF layer's playback.
   * The new objects are the restored ones, in order, each with its metadata filled
   * in.
   */
  function AddSaved(ed: Editor, saved: seq<Document.SavedObject>, stamps: seq<string>, env: GifPlayer.Env)
    : (r: Editor)
    requires |stamps| == |saved|
    ensures r.objects == ed.objects + Filled(Document.Restore(saved, ed.nextHandle), stamps)
    ensures r.nextHandle == ed.nextHandle + |saved|
    ensures r.(objects := ed.objects, player := ed.player, nextHandle := ed.nextHandle) == ed
    decreases |saved|
  {
    if saved == [] then ed
    else
      var ed2 := AddOneSaved(ed, saved[0], stamps[0], env);
      var r := AddSaved(ed2, saved[1..], stamps[1..], env);
      var restored := Document.Restore(saved, ed.nextHandle);
      assert restored == [Document.Revive(saved[0], ed.nextHandle)] + Document.Restore(saved[1..], ed.nextHandle + 1);
      assert restored[1..] == Document.Restore(saved[1..], ed.nextHandle + 1);
      r
  }

  /**
   * The editor's bootstrap with a saved design, on a ready canvas: the GIF
   * registry is cleared (as written: runners stopped, requests left alone), the
   * canvas is cleared, the saved background comes back under a fresh identity
   * (or none), the saved objects are inserted in order under the following
   * identities, each through the `object:added` handler, and then the load
   * callback decides the "reset background" offer and starts every GIF layer with
   * a source. A canvas that is not ready is left alone.
   */
  function LoadDocument(ed: Editor, doc: Document.Doc, templateUrl: string, stamps: seq<string>,
                        env: GifPlayer.Env): (r: Editor)
    requires |stamps| == |doc.objects|
    ensures !ed.ready ==> r == ed
    ensures ed.ready ==>
              && |r.objects| == |doc.objects|
              && r.objects == Filled(Document.Restore(doc.objects, ed.nextHandle + 1), stamps)
              && (forall k :: 0 <= k < |r.objects| ==> Layers.HasMetadata(r.objects[k]))
              && r.background == RestoreBackground(doc.background, ed.nextHandle)
              && r.active.None?
              && r.hasCustomBackground == Document.CustomAfterLoad(doc.background, templateUrl)
              && r.nextHandle == ed.nextHandle + 1 + |doc.objects|
              && FreshHandles(r) && BackgroundApart(r)
              && r.canvasId == ed.canvasId && r.ready && r.baseWidth == ed.baseWidth && r.baseHeight == ed.baseHeight
    ensures ed.ready && Layers.UniqueIds(r.objects) && env.canvasReady && env.libraryAvailable && env.contextAvailable
            ==> forall k :: 0 <= k < |r.objects| && Animated(r.objects[k]) ==> Plays(r.player, r.objects[k])
  {
    if !ed.ready then ed
    else
      var cleared := ed.(objects := [], active := None, player := GifPlayer.Clear(ed.player),
                         background := RestoreBackground(doc.background, ed.nextHandle),
                         nextHandle := ed.nextHandle + 1);
      var added := AddSaved(cleared, doc.objects, stamps, env);
      var ed1 := added.(hasCustomBackground := Document.CustomAfterLoad(doc.background, templateUrl));
      var r := StartAll(ed1, 0, env);
      assert r.(player := ed1.player) == ed1;
      assert r.objects == added.objects && r.background == cleared.background && r.nextHandle == added.nextHandle;
      assert r.active == cleared.active && r.hasCustomBackground == ed1.hasCustomBackground;
      assert r.objects == Filled(Document.Restore(doc.objects, ed.nextHandle + 1), stamps);
      LoadedIsFresh(r, doc.objects, ed.nextHandle + 1, stamps);
      if Layers.UniqueIds(ed1.objects) && env.canvasReady && env.libraryAvailable && env.contextAvailable then
        StartAllCovers(ed1, 0, env);
        r
      else r
  }

  /** An editor holding just-restored objects above a background restored one
      identity earlier keeps its identities fresh and apart, and every object has
      its metadata. */
  lemma LoadedIsFresh(r: Editor, saved: seq<Document.SavedObject>, first: nat, stamps: seq<string>)
    requires |stamps| == |saved| && first > 0
    requires r.objects == Filled(Document.Restore(saved, first), stamps)
    requires r.nextHandle == first + |saved|
    requires r.background.Some? ==> r.background.value.handle == first - 1
    ensures FreshHandles(r) && BackgroundApart(r)
    ensures forall k :: 0 <= k < |r.objects| ==> Layers.HasMetadata(r.objects[k])
  {
    RestoredHandles(saved, first, stamps);
  }

  /** Restored objects keep the consecutive identities they were given, through the
      metadata fill too. */
  lemma RestoredHandles(saved: seq<Document.SavedObject>, first: nat, stamps: seq<string>)
    requires |stamps| == |saved|
    ensures forall k :: 0 <= k < |saved| ==> Filled(Document.Restore(saved, first), stamps)[k].handle == first + k
  {
    var restored := Document.Restore(saved, first);
    forall k | 0 <= k < |saved| ensures Filled(restored, stamps)[k].handle == first + k {
      assert Filled(restored, stamps)[k] == Layers.EnsureMetadata(restored[k], stamps[k]);
    }
  }

  /** Filling in the metadata of a restored snapshot of layers that already have
      it gives the layers back, up to identity. */
  lemma RevivedSnapshot(objs: seq<Layers.Layer>, first: nat, stamps: seq<string>, k: nat)
    requires k < |objs| && k < |stamps|
    requires Layers.HasMetadata(objs[k])
    ensures Layers.EnsureMetadata(Document.Restore(Document.Snapshot(objs), first)[k], stamps[k]).(handle := 0)
            == objs[k].(handle := 0)
  {
    Document.RoundTrip(objs, first);
    var revived := Document.Restore(Document.Snapshot(objs), first)[k];
    assert revived.(handle := 0) == objs[k].(handle := 0);
  }

  /** Loading the snapshot of layers that carry their metadata gives the same
      layers back, up to identity. */
  lemma {:induction false} ReloadedLayers(objs: seq<Layers.Layer>, blank: Editor, doc: Document.Doc, url: string,
                       stamps: seq<string>, env: GifPlayer.Env)
    requires blank.ready && doc.objects == Document.Snapshot(objs) && |stamps| == |objs|
    requires forall k :: 0 <= k < |objs| ==> Layers.HasMetadata(objs[k])
    ensures Document.SameLayers(LoadDocument(blank, doc, url, stamps, env).objects, objs)
  {
    var r := LoadDocument(blank, doc, url, stamps, env);
    assert |r.objects| == |objs|;
    forall k | 0 <= k < |objs|
      ensures r.objects[k].(handle := 0) == objs[k].(handle := 0)
    {
      RevivedSnapshot(objs, blank.nextHandle + 1, stamps, k);
    }
  }

  /**
   * Saving and loading into a ready editor again reproduces the layers (order,
   * ids, names, types, visibility, GIF sources, transforms) and the background
   * (source, tag, placement, flags), keeps the "reset background" offer, and has
   * every GIF layer with a source playing its GIF again. The layers are the ones
   * the editor keeps: ids unique, metadata filled in.
   */
  lemma SaveLoadRoundTrip(ed: Editor, blank: Editor, sizeKey: string, template: Option<TemplateInfo>,
                          design: Option<DesignInfo>, suffix: string, stamps: seq<string>, env: GifPlayer.Env)
    requires blank.ready && |stamps| == |ed.objects|
    requires Layers.UniqueIds(ed.objects)
    requires forall k :: 0 <= k < |ed.objects| ==> Layers.HasMetadata(ed.objects[k])
    requires env.canvasReady && env.libraryAvailable && env.contextAvailable
    requires ed.background.Some? ==> ed.background.value.tag in {"template", "custom"}
    requires ed.hasCustomBackground == (ed.background.Some? && ed.background.value.tag == "custom")
    ensures var doc := Save(ed, sizeKey, template, design, suffix).doc;
            var r := LoadDocument(blank, doc, if template.Some? then template.value.imageUrl else "", stamps, env);
            && Document.SameLayers(r.objects, ed.objects)
            && (r.background.Some? <==> ed.background.Some?)
            && (ed.background.Some? ==> r.background.value.(handle := 0) == ed.background.value.(handle := 0))
            && r.hasCustomBackground == ed.hasCustomBackground
            && forall k :: 0 <= k < |ed.objects| && Animated(ed.objects[k]) ==> Plays(r.player, ed.objects[k])
  {
    var doc := Save(ed, sizeKey, template, design, suffix).doc;
    var url := if template.Some? then template.value.imageUrl else "";
    var r := LoadDocument(blank, doc, url, stamps, env);
    ReloadedLayers(ed.objects, blank, doc, url, stamps, env);
    SameLayersKeepIds(r.objects, ed.objects);
    SameLayersPlay(r.player, r.objects, ed.objects);
  }

  /** Stacks that agree up to identity agree on whether their ids are unique. */
  lemma SameLayersKeepIds(a: seq<Layers.Layer>, b: seq<Layers.Layer>)
    requires Document.SameLayers(a, b) && Layers.UniqueIds(b)
    ensures Layers.UniqueIds(a)
  {
    forall i, j | 0 <= i < j < |a| ensures a[i].layerId != a[j].layerId {
      assert a[i].(handle := 0).layerId == b[i].layerId;
      assert a[j].(handle := 0).layerId == b[j].layerId;
    }
  }

  /** A registry playing every GIF layer of a stack plays every GIF layer of a
      stack that agrees with it up to identity. */
  lemma SameLayersPlay(p: GifPlayer.Player, a: seq<Layers.Layer>, b: seq<Layers.Layer>)
    requires Document.SameLayers(a, b)
    requires forall k :: 0 <= k < |a| && Animated(a[k]) ==> Plays(p, a[k])
    ensures forall k :: 0 <= k < |b| && Animated(b[k]) ==> Plays(p, b[k])
  {
    forall k | 0 <= k < |b| && Animated(b[k]) ensures Plays(p, b[k]) {
      assert a[k].(handle := 0) == b[k].(handle := 0);
      assert Animated(a[k]);
    }
  }

  /** Adding an overlay keeps every identity below `nextHandle` and the new
      picture apart from the background. */
  lemma AddOverlayKeepsFresh(ed: Editor, img: Layers.Layer, size: Fit.ImageSize, stamp: string, env: GifPlayer.Env)
    requires FreshHandles(ed) && BackgroundApart(ed)
    ensures var r := AddOverlay(ed, img, size, stamp, env);
            FreshHandles(r) && BackgroundApart(r)
  {
    var r := AddOverlay(ed, img, size, stamp, env);
    if ed.ready {
      assert forall k :: 0 <= k < |ed.objects| ==> r.objects[k] == ed.objects[k] by {
        assert forall k :: 0 <= k < |ed.objects| ==> r.objects[k] == r.objects[..|ed.objects|][k];
      }
    }
  }

  /** A completed background keeps every identity below `nextHandle`. */
  lemma CompleteBackgroundKeepsFresh(ed: Editor, pending: Pending, decoded: Option<Fit.ImageSize>)
    requires FreshHandles(ed)
    ensures var c := CompleteBackground(ed, pending, decoded);
            c.Applied? ==> FreshHandles(c.ed) && BackgroundApart(c.ed)
  {
  }

  /** Deleting a layer keeps every identity below `nextHandle` and the layers
      apart from the background. */
  lemma DeleteLayerKeepsFresh(ed: Editor, id: string)
    requires FreshHandles(ed) && BackgroundApart(ed)
    ensures FreshHandles(DeleteLayer(ed, id)) && BackgroundApart(DeleteLayer(ed, id))
  {
    var r := DeleteLayer(ed, id);
    if Layers.Find(ed.objects, id).Some? {
      var i := Layers.Find(ed.objects, id).value;
      assert forall k :: 0 <= k < |r.objects| ==> r.objects[k] == if k < i then ed.objects[k] else ed.objects[k + 1];
    }
  }

  // ---------------------------------------------------------------------------
  // Upload fallback

  /** Which notice the editor shows after an upload failed and a local copy was
      used instead: a sign-in notice for status 401, a generic one otherwise. */
  datatype Notice = LoginRequired | UploadFailed

  function FallbackNotice(status: int): (n: Notice)
    ensures n == LoginRequired <==> status == 401
  {
    if status == 401 then LoginRequired else UploadFailed
  }
}
