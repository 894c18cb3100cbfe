/**
 * The saved canvas document: the canvas library's JSON snapshot, reduced to the
 * properties the editor exports for each object, plus the size metadata both the
 * canvas editor's `save` and the page's `serializeCanvas` write into it.
 */
module Document {
  import opened Wrappers
  import Layers
  import Fit

  /** The document's `meta` object: the logical size, the size-preset key, and
      whatever other keys it already carried. 0 and "" stand for absent. */
  datatype Meta = Meta(baseWidth: int, baseHeight: int, sizeKey: string, others: map<string, string>)

  /** `{}`: a `meta` object with no keys. */
  const EmptyMeta := Meta(0, 0, "", map[])

  /** One object as exported: its canvas type, the layer properties the editor
      asks the library to export, and its transform. */
  datatype SavedObject = SavedObject(
    kind: Layers.FabricKind,
    layerId: string,
    layerName: string,
    layerType: string,
    visible: bool,
    gifSource: string,
    transform: Layers.Transform)

  /** The exported background image: its source, its tag, its placement and its
      interactivity flags. */
  datatype SavedBackground = SavedBackground(
    source: string,
    tag: string,
    placement: Fit.Placement,
    selectable: bool,
    evented: bool)

  /** A saved document; `width`/`height` are 0 when absent. */
  datatype Doc = Doc(
    width: int,
    height: int,
    meta: Option<Meta>,
    objects: seq<SavedObject>,
    background: Option<SavedBackground>)

  /**
   * The size stamp shared by `save` and `serializeCanvas`: top-level width and
   * height, and `meta.baseWidth`, `meta.baseHeight` and `meta.sizeKey`, with every
   * other `meta` key and the rest of the document kept.
   */
  function WithSize(doc: Doc, width: int, height: int, sizeKey: string): (r: Doc)
    ensures r.width == width && r.height == height
    ensures r.meta.Some? && r.meta.value.baseWidth == width && r.meta.value.baseHeight == height
    ensures r.meta.value.sizeKey == sizeKey
    ensures r.meta.value.others == doc.meta.GetOr(EmptyMeta).others
    ensures r.objects == doc.objects && r.background == doc.background
  {
    var meta := doc.meta.GetOr(EmptyMeta);
    doc.(width := width, height := height,
         meta := Some(meta.(baseWidth := width, baseHeight := height, sizeKey := sizeKey)))
  }

  /** Stamping twice keeps only the last stamp. */
  lemma WithSizeTwice(doc: Doc, w1: int, h1: int, k1: string, w2: int, h2: int, k2: string)
    ensures WithSize(WithSize(doc, w1, h1, k1), w2, h2, k2) == WithSize(doc, w2, h2, k2)
  {
  }

  /** The exported form of one canvas object. */
  function Save(obj: Layers.Layer): SavedObject {
    SavedObject(obj.kind, obj.layerId, obj.layerName, obj.layerType, obj.visible, obj.gifSource, obj.transform)
  }

  /** A saved object brought back to life as the canvas object with identity `handle`. */
  function Revive(s: SavedObject, handle: nat): Layers.Layer {
    Layers.Layer(handle, s.kind, s.layerId, s.layerType, s.layerName, s.visible, s.gifSource, s.transform)
  }

  /** The object list of the snapshot, in paint order. */
  function Snapshot(objs: seq<Layers.Layer>): (r: seq<SavedObject>)
    ensures |r| == |objs| && forall k :: 0 <= k < |objs| ==> r[k] == Save(objs[k])
  {
    if objs == [] then [] else [Save(objs[0])] + Snapshot(objs[1..])
  }

  /** The object list rebuilt from a document, the new objects getting the
      identities `first`, `first + 1`, ... */
  function Restore(saved: seq<SavedObject>, first: nat): (r: seq<Layers.Layer>)
    ensures |r| == |saved| && forall k :: 0 <= k < |saved| ==> r[k] == Revive(saved[k], first + k)
  {
    if saved == [] then [] else [Revive(saved[0], first)] + Restore(saved[1..], first + 1)
  }

  /** Two stacks agree on everything but object identity. */
  predicate SameLayers(a: seq<Layers.Layer>, b: seq<Layers.Layer>) {
    |a| == |b| && forall k :: 0 <= k < |a| ==> a[k].(handle := 0) == b[k].(handle := 0)
  }

  /**
   * Saving and loading reproduces the layer stack: same count and order, and for
   * each layer the same id, name, type, visibility, GIF source, canvas type and
   * transform. Only the object identities are new.
   */
  lemma RoundTrip(objs: seq<Layers.Layer>, first: nat)
    ensures SameLayers(Restore(Snapshot(objs), first), objs)
    ensures forall k :: 0 <= k < |objs| ==> Restore(Snapshot(objs), first)[k].handle == first + k
  {
  }

  /**
   * Whether the editor offers "reset background" after loading a document: a
   * tagged background is custom exactly when tagged so; an untagged one (an older
   * document) is custom when its source differs from the template's.
   */
  function CustomAfterLoad(bg: Option<SavedBackground>, templateUrl: string): (custom: bool)
    ensures bg.None? ==> !custom
    ensures bg.Some? && bg.value.tag != "" ==> (custom <==> bg.value.tag == "custom")
    ensures bg.Some? && bg.value.tag == "" ==>
              (custom <==> bg.value.source != "" && templateUrl != "" && bg.value.source != templateUrl)
  {
    match bg
    case None => false
    case Some(b) =>
      if b.tag != "" then b.tag == "custom"
      else b.source != "" && templateUrl != "" && b.source != templateUrl
  }
}
