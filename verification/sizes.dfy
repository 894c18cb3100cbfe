/**
 * The editor page's canvas-size logic: six size presets matched with a 4 px
 * tolerance, the de-duplicated option list of the size picker, the size a size
 * key stands for, the key's transitions, and restoring the key from a saved
 * document. Widths and heights of 0 and keys of "" stand for absent values.
 */
module Sizes {
  import opened Wrappers
  import Document

  datatype Size = Size(width: int, height: int)

  datatype Preset = Preset(id: string, name: string, width: int, height: int)

  /** How far apart two sizes may be, in each direction, and still count as one. */
  const Tolerance := 4

  const Presets: seq<Preset> := [
    Preset("a6-portrait", "A6 Portrait", 1200, 1800),
    Preset("a6-landscape", "A6 Landscape", 1800, 1200),
    Preset("square", "Square", 1600, 1600),
    Preset("postcard-5x7", "Postcard 5x7", 1500, 2100),
    Preset("story-9x16", "Story 9x16", 1080, 1920),
    Preset("wide-16x9", "Cinema 16x9", 1920, 1080)
  ]

  /** The size used when neither the template nor a custom size gives one. */
  const Fallback := Size(1200, 1800)

  function Abs(x: int): nat { if x < 0 then -x else x }

  /** Within the tolerance in both directions. */
  predicate Near(w1: int, h1: int, w2: int, h2: int) {
    Abs(w1 - w2) <= Tolerance && Abs(h1 - h2) <= Tolerance
  }

  /** No two presets are near each other, so at most one preset matches any size. */
  lemma PresetsApart(i: nat, j: nat, w: int, h: int)
    requires i < j < |Presets|
    ensures !(Near(Presets[i].width, Presets[i].height, w, h) && Near(Presets[j].width, Presets[j].height, w, h))
  {
  }

  /** Position of the first preset from `from` on that is near `w` x `h`. */
  function FirstNear(w: int, h: int, from: nat): (r: Option<nat>)
    requires from <= |Presets|
    ensures r.Some? ==> from <= r.value < |Presets| && Near(Presets[r.value].width, Presets[r.value].height, w, h)
    ensures r.Some? ==> forall k :: from <= k < r.value ==> !Near(Presets[k].width, Presets[k].height, w, h)
    ensures r.None? ==> forall k :: from <= k < |Presets| ==> !Near(Presets[k].width, Presets[k].height, w, h)
    decreases |Presets| - from
  {
    if from == |Presets| then None
    else if Near(Presets[from].width, Presets[from].height, w, h) then Some(from)
    else FirstNear(w, h, from + 1)
  }

  /**
   * `matchSizePreset`: none when a dimension is missing; otherwise the first
   * preset within the tolerance in both directions, or none if there is none.
   */
  function MatchPreset(w: int, h: int): (r: Option<Preset>)
    ensures r.Some? <==> w != 0 && h != 0 && exists k :: 0 <= k < |Presets| && Near(Presets[k].width, Presets[k].height, w, h)
    ensures r.Some? ==> r.value in Presets && Near(r.value.width, r.value.height, w, h)
  {
    if w == 0 || h == 0 then None
    else match FirstNear(w, h, 0)
      case None => None
      case Some(i) => Some(Presets[i])
  }

  /** Every preset matches itself. */
  lemma PresetMatchesItself(k: nat)
    requires k < |Presets|
    ensures MatchPreset(Presets[k].width, Presets[k].height) == Some(Presets[k])
  {
    var p := Presets[k];
    var r := FirstNear(p.width, p.height, 0);
    assert Near(p.width, p.height, p.width, p.height);
    if r.Some? && r.value != k {
      if r.value < k { PresetsApart(r.value, k, p.width, p.height); }
    }
  }

  /** The preset with the given id. */
  function PresetById(id: string): (r: Option<Preset>)
    ensures r.Some? <==> exists k :: 0 <= k < |Presets| && Presets[k].id == id
    ensures r.Some? ==> r.value in Presets && r.value.id == id
  {
    if id == "a6-portrait" then Some(Presets[0])
    else if id == "a6-landscape" then Some(Presets[1])
    else if id == "square" then Some(Presets[2])
    else if id == "postcard-5x7" then Some(Presets[3])
    else if id == "story-9x16" then Some(Presets[4])
    else if id == "wide-16x9" then Some(Presets[5])
    else None
  }

  predicate IsPresetId(id: string) {
    exists k :: 0 <= k < |Presets| && Presets[k].id == id
  }

  // ---------------------------------------------------------------------------
  // The size picker's options

  /** An option's label, as formatted for display (name and rounded size). */
  datatype Label = Label(name: string, width: int, height: int)

  datatype SizeOption = SizeOption(id: string, caption: Label, width: int, height: int, disabled: bool)

  /** `templateSize`: the template's size, when it has both dimensions. */
  function TemplateSize(width: int, height: int): (r: Option<Size>)
    ensures r.Some? <==> width != 0 && height != 0
    ensures r.Some? ==> r.value == Size(width, height)
  {
    if width == 0 || height == 0 then None else Some(Size(width, height))
  }

  /** No two options are near each other. */
  predicate Apart(opts: seq<SizeOption>) {
    forall i, j :: 0 <= i < j < |opts| ==> !Near(opts[i].width, opts[i].height, opts[j].width, opts[j].height)
  }

  /** Some option is near `w` x `h`. */
  predicate Covered(opts: seq<SizeOption>, w: int, h: int) {
    exists k :: 0 <= k < |opts| && Near(opts[k].width, opts[k].height, w, h)
  }

  /** `addOption`: appended unless an option near it is already listed. */
  function AddOption(opts: seq<SizeOption>, o: SizeOption): (r: seq<SizeOption>)
    requires Apart(opts)
    ensures Apart(r) && Covered(r, o.width, o.height)
    ensures r == opts || r == opts + [o]
    ensures r == opts + [o] <==> !Covered(opts, o.width, o.height)
  {
    if Covered(opts, o.width, o.height) then opts
    else
      var r := opts + [o];
      assert Near(o.width, o.height, o.width, o.height);
      assert r[|opts|] == o;
      r
  }

  /** The option a preset contributes to the list. */
  function PresetOption(p: Preset): SizeOption {
    SizeOption(p.id, Label(p.name, p.width, p.height), p.width, p.height, false)
  }

  /** The options the presets contribute, in order. */
  const PresetOptions: seq<SizeOption> := [
    PresetOption(Presets[0]), PresetOption(Presets[1]), PresetOption(Presets[2]),
    PresetOption(Presets[3]), PresetOption(Presets[4]), PresetOption(Presets[5])
  ]

  /** Every preset option is enabled and carries its preset's id, name and size. */
  lemma PresetOptionsFaithful(o: SizeOption)
    requires o in PresetOptions
    ensures !o.disabled && PresetById(o.id) == Some(Preset(o.id, o.caption.name, o.width, o.height))
  {
  }

  /** The presets from `from` on, each added unless an option near it is already listed. */
  function AddPresets(opts: seq<SizeOption>, from: nat): (r: seq<SizeOption>)
    requires from <= |Presets| && Apart(opts)
    ensures Apart(r) && |opts| <= |r| && r[..|opts|] == opts
    ensures forall k :: |opts| <= k < |r| ==> r[k] in PresetOptions
    decreases |Presets| - from
  {
    if from == |Presets| then opts
    else
      var next := AddOption(opts, PresetOption(Presets[from]));
      assert PresetOptions[from] == PresetOption(Presets[from]);
      assert next != opts ==> next[|opts|] == PresetOption(Presets[from]);
      var r := AddPresets(next, from + 1);
      assert r[..|opts|] == r[..|next|][..|opts|];
      r
  }

  /** After the presets from `from` on are added, each of them is near some option. */
  lemma {:induction false} AddPresetsCovers(opts: seq<SizeOption>, from: nat, k: nat)
    requires from <= k < |Presets| && Apart(opts)
    ensures Covered(AddPresets(opts, from), Presets[k].width, Presets[k].height)
    decreases |Presets| - from
  {
    var next := AddOption(opts, PresetOption(Presets[from]));
    var r := AddPresets(opts, from);
    if k == from {
      CoveredGrows(next, r, Presets[k].width, Presets[k].height);
    } else {
      AddPresetsCovers(next, from + 1, k);
    }
  }

  lemma CoveredGrows(a: seq<SizeOption>, b: seq<SizeOption>, w: int, h: int)
    requires |a| <= |b| && b[..|a|] == a && Covered(a, w, h)
    ensures Covered(b, w, h)
  {
    var k :| 0 <= k < |a| && Near(a[k].width, a[k].height, w, h);
    assert b[k] == a[k];
  }

  /** The three kinds of option: the template's, a preset's, and the disabled custom one. */
  predicate Listed(o: SizeOption) {
    || (o.id == "template" && !o.disabled)
    || o in PresetOptions
    || (o.id == "custom" && o.disabled)
  }

  /** Only the custom option is disabled, and every option's id is a size key. */
  lemma ListedOption(o: SizeOption)
    requires Listed(o)
    ensures o.disabled <==> o.id == "custom"
    ensures o.id == "template" || o.id == "custom" || IsPresetId(o.id)
  {
    if o in PresetOptions {
      PresetOptionsFaithful(o);
    }
  }

  /**
   * `sizeOptions`: the template's size first (when known), then every preset, then
   * the custom size (when set), each left out when an option near it is already
   * listed. No two options are near each other, every preset and the custom size
   * are near some option, and only the custom option is disabled.
   */
  function SizeOptions(templateSize: Option<Size>, customSize: Option<Size>): (r: seq<SizeOption>)
    ensures Apart(r)
    ensures templateSize.Some? ==>
              |r| > 0 && r[0].id == "template" && r[0].width == templateSize.value.width && r[0].height == templateSize.value.height
    ensures forall k :: 0 <= k < |Presets| ==> Covered(r, Presets[k].width, Presets[k].height)
    ensures customSize.Some? ==> Covered(r, customSize.value.width, customSize.value.height)
    ensures forall k :: 0 <= k < |r| ==> Listed(r[k])
  {
    var first := TemplateOption(templateSize);
    var withPresets := AddPresets(first, 0);
    var r := AddCustom(withPresets, customSize);
    PresetsStayCovered(first, withPresets, r);
    AssembledListed(templateSize, customSize);
    r
  }

  /** The list holding only the template's option, when there is a template size. */
  function TemplateOption(templateSize: Option<Size>): (r: seq<SizeOption>)
    ensures Apart(r) && |r| <= 1
    ensures |r| == 1 <==> templateSize.Some?
    ensures templateSize.Some? ==>
              r[0] == SizeOption("template", r[0].caption, templateSize.value.width, templateSize.value.height, false)
  {
    match templateSize
    case None => []
    case Some(t) => [SizeOption("template", Label("Template default", t.width, t.height), t.width, t.height, false)]
  }

  /** The custom size's disabled option, added unless an option near it is listed. */
  function AddCustom(opts: seq<SizeOption>, customSize: Option<Size>): (r: seq<SizeOption>)
    requires Apart(opts)
    ensures Apart(r) && |opts| <= |r| && r[..|opts|] == opts
    ensures customSize.Some? ==> Covered(r, customSize.value.width, customSize.value.height)
    ensures forall k :: |opts| <= k < |r| ==> r[k].id == "custom" && r[k].disabled
  {
    match customSize
    case None => opts
    case Some(c) =>
      var o := SizeOption("custom", Label("Custom", c.width, c.height), c.width, c.height, true);
      var r := AddOption(opts, o);
      assert r != opts ==> r[|opts|] == o;
      r
  }

  /** Every preset is near some option of the finished list. */
  lemma PresetsStayCovered(first: seq<SizeOption>, withPresets: seq<SizeOption>, r: seq<SizeOption>)
    requires Apart(first) && withPresets == AddPresets(first, 0)
    requires |withPresets| <= |r| && r[..|withPresets|] == withPresets
    ensures forall k :: 0 <= k < |Presets| ==> Covered(r, Presets[k].width, Presets[k].height)
  {
    forall k | 0 <= k < |Presets| ensures Covered(r, Presets[k].width, Presets[k].height) {
      AddPresetsCovers(first, 0, k);
      CoveredGrows(withPresets, r, Presets[k].width, Presets[k].height);
    }
  }

  /** The template's option, then preset options, then custom ones: every entry is listed. */
  lemma AssembledListed(templateSize: Option<Size>, customSize: Option<Size>)
    ensures var first := TemplateOption(templateSize);
            var r := AddCustom(AddPresets(first, 0), customSize);
            && (templateSize.Some? ==> r[0] == first[0])
            && forall k :: 0 <= k < |r| ==> Listed(r[k])
  {
    var first := TemplateOption(templateSize);
    var withPresets := AddPresets(first, 0);
    var r := AddCustom(withPresets, customSize);
    forall k | 0 <= k < |r| ensures Listed(r[k]) {
      if k < |withPresets| {
        assert r[k] == withPresets[k];
        if k < |first| {
          assert withPresets[k] == first[k];
        }
      }
    }
    if templateSize.Some? {
      assert r[0] == withPresets[0] == first[0];
    }
  }

  // ---------------------------------------------------------------------------
  // The size key

  /** The page's size state: the key and the custom size. */
  datatype SizeState = SizeState(key: string, custom: Option<Size>)

  /**
   * `currentSize`: the template key (or no key) means the template's size, else
   * 1200x1800; the custom key with a custom size means that size; a preset id means
   * that preset's size; anything else falls back to the template's size, then the
   * custom size, then 1200x1800.
   */
  function CurrentSize(key: string, templateSize: Option<Size>, custom: Option<Size>): (r: Size)
    ensures key == "template" || key == "" ==> r == templateSize.GetOr(Fallback)
    ensures key == "custom" && custom.Some? ==> r == custom.value
    ensures PresetById(key).Some? ==> r == Size(PresetById(key).value.width, PresetById(key).value.height)
    ensures key != "template" && key != "" && !(key == "custom" && custom.Some?) && PresetById(key).None? ==>
              r == (if templateSize.Some? then templateSize.value else custom.GetOr(Fallback))
  {
    if key == "template" || key == "" then templateSize.GetOr(Fallback)
    else if key == "custom" && custom.Some? then custom.value
    else match PresetById(key)
      case Some(p) => Size(p.width, p.height)
      case None =>
        if templateSize.Some? then templateSize.value
        else custom.GetOr(Fallback)
  }

  /** Sizes with both dimensions set. */
  predicate Known(s: Size) { s.width != 0 && s.height != 0 }

  /** The current size always has both dimensions when the template's and the
      custom size have, so a save always writes the size metadata. */
  lemma CurrentSizeKnown(key: string, templateSize: Option<Size>, custom: Option<Size>)
    requires templateSize.Some? ==> Known(templateSize.value)
    requires custom.Some? ==> Known(custom.value)
    ensures Known(CurrentSize(key, templateSize, custom))
  {
  }

  /**
   * `handleSizeChange`: the template key and a preset id are taken and clear the
   * custom size; the custom key is taken only when a custom size exists; any other
   * value changes nothing.
   */
  function HandleSizeChange(s: SizeState, value: string): (r: SizeState)
    ensures value == "template" ==> r == SizeState("template", None)
    ensures value == "custom" ==> r == (if s.custom.Some? then s.(key := "custom") else s)
    ensures IsPresetId(value) ==> r == SizeState(value, None)
    ensures value != "template" && value != "custom" && !IsPresetId(value) ==> r == s
  {
    if value == "template" then SizeState("template", None)
    else if value == "custom" then (if s.custom.Some? then s.(key := "custom") else s)
    else if PresetById(value).Some? then SizeState(value, None)
    else s
  }

  /** States the page can reach: the custom key exactly when a custom size is set,
      and custom sizes have both dimensions. */
  predicate Consistent(s: SizeState) {
    (s.key == "custom" <==> s.custom.Some?) && (s.custom.Some? ==> Known(s.custom.value))
  }

  lemma HandleSizeChangeConsistent(s: SizeState, value: string)
    requires Consistent(s)
    ensures Consistent(HandleSizeChange(s, value))
  {
  }

  /**
   * The template effect, for a page without a saved invite document: the key
   * becomes the preset the template's size matches, or the template key; the
   * custom size is cleared. It does nothing without a template size or with a
   * saved document.
   */
  function TemplateEffect(templateSize: Option<Size>, hasSavedInvite: bool): (r: Option<SizeState>)
    ensures r.None? <==> templateSize.None? || hasSavedInvite
    ensures r.Some? ==> r.value.custom.None? && Consistent(r.value)
    ensures r.Some? ==> var t := templateSize.value;
              (MatchPreset(t.width, t.height).Some? ==> r.value.key == MatchPreset(t.width, t.height).value.id)
              && (MatchPreset(t.width, t.height).None? ==> r.value.key == "template")
  {
    if templateSize.None? || hasSavedInvite then None
    else match MatchPreset(templateSize.value.width, templateSize.value.height)
      case Some(p) => Some(SizeState(p.id, None))
      case None => Some(SizeState("template", None))
  }

  // ---------------------------------------------------------------------------
  // Saved documents

  /** What `extractFabricSize` reads from a document. */
  datatype SavedSize = SavedSize(width: int, height: int, sizeKey: string)

  /**
   * `extractFabricSize`: nothing for no document; otherwise the size from `meta`,
   * each dimension falling back to the top-level one, and the saved key.
   */
  function ExtractSize(doc: Option<Document.Doc>): (r: Option<SavedSize>)
    ensures r.None? <==> doc.None?
    ensures r.Some? ==> var meta := doc.value.meta.GetOr(Document.EmptyMeta);
              && (meta.baseWidth != 0 ==> r.value.width == meta.baseWidth)
              && (meta.baseWidth == 0 ==> r.value.width == doc.value.width)
              && (meta.baseHeight != 0 ==> r.value.height == meta.baseHeight)
              && (meta.baseHeight == 0 ==> r.value.height == doc.value.height)
              && r.value.sizeKey == meta.sizeKey
  {
    match doc
    case None => None
    case Some(d) =>
      var meta := d.meta.GetOr(Document.EmptyMeta);
      Some(SavedSize(if meta.baseWidth != 0 then meta.baseWidth else d.width,
                     if meta.baseHeight != 0 then meta.baseHeight else d.height,
                     meta.sizeKey))
  }

  /** A matching preset's key, else the custom key with the given size. */
  function MatchOrCustom(w: int, h: int): (r: SizeState)
    requires w != 0 && h != 0
    ensures MatchPreset(w, h).Some? ==> r == SizeState(MatchPreset(w, h).value.id, None)
    ensures MatchPreset(w, h).None? ==> r == SizeState("custom", Some(Size(w, h)))
  {
    match MatchPreset(w, h)
    case Some(p) => SizeState(p.id, None)
    case None => SizeState("custom", Some(Size(w, h)))
  }

  /**
   * The restore effect: the invite document is read, else the RSVP document. A
   * saved custom key with both dimensions restores the custom size; a saved
   * preset id restores that preset; otherwise a size with both dimensions is
   * matched against the presets, and failing that becomes a custom size. Without
   * any of these, nothing changes.
   */
  function Restore(invite: Option<Document.Doc>, rsvp: Option<Document.Doc>): (r: Option<SizeState>)
    ensures invite.None? && rsvp.None? ==> r.None?
    ensures r.Some? ==> Consistent(r.value) && r.value.key != "template"
    ensures var src := if invite.Some? then ExtractSize(invite) else ExtractSize(rsvp);
            src.Some? ==>
              var s := src.value;
              && (s.sizeKey == "custom" && s.width != 0 && s.height != 0 ==>
                    r == Some(SizeState("custom", Some(Size(s.width, s.height)))))
              && (IsPresetId(s.sizeKey) ==> r == Some(SizeState(s.sizeKey, None)))
              && (!(s.sizeKey == "custom" && s.width != 0 && s.height != 0) && !IsPresetId(s.sizeKey) ==>
                    r == (if s.width != 0 && s.height != 0 then Some(MatchOrCustom(s.width, s.height)) else None))
  {
    if invite.None? && rsvp.None? then None
    else
      var src := if invite.Some? then ExtractSize(invite) else ExtractSize(rsvp);
      var s := src.value;
      if s.sizeKey == "custom" && s.width != 0 && s.height != 0 then
        Some(SizeState("custom", Some(Size(s.width, s.height))))
      else if PresetById(s.sizeKey).Some? then Some(SizeState(s.sizeKey, None))
      else if s.width != 0 && s.height != 0 then Some(MatchOrCustom(s.width, s.height))
      else None
  }

  /**
   * `serializeCanvas`'s size stamp: with a current size that has both dimensions
   * the document gets that size and the key; otherwise it is left as it is.
   */
  function Serialize(doc: Document.Doc, current: Size, key: string): (r: Document.Doc)
    ensures Known(current) ==> r == Document.WithSize(doc, current.width, current.height, key)
    ensures !Known(current) ==> r == doc
    ensures r.objects == doc.objects
  {
    if Known(current) then Document.WithSize(doc, current.width, current.height, key) else doc
  }

  /** What a document stamped with a known size and a key reads back as. */
  lemma ExtractSerialized(doc: Document.Doc, current: Size, key: string)
    requires Known(current)
    ensures ExtractSize(Some(Serialize(doc, current, key))) == Some(SavedSize(current.width, current.height, key))
  {
  }

  /**
   * Saving and reopening keeps the page's size choice: a preset key comes back as
   * that preset and a custom size as that custom size. The template key never
   * comes back as such: the template's size is matched against the presets
   * instead (and becomes a custom size when none matches).
   */
  lemma SaveRestoreRoundTrip(doc: Document.Doc, s: SizeState, templateSize: Option<Size>, rsvp: Option<Document.Doc>)
    requires Consistent(s)
    requires templateSize.Some? ==> Known(templateSize.value)
    requires s.key == "template" || s.key == "custom" || IsPresetId(s.key)
    ensures var current := CurrentSize(s.key, templateSize, s.custom);
            var saved := Serialize(doc, current, s.key);
            && (s.key != "template" ==> Restore(Some(saved), rsvp) == Some(s))
            && (s.key == "template" ==> Restore(Some(saved), rsvp) == Some(MatchOrCustom(current.width, current.height)))
  {
    var current := CurrentSize(s.key, templateSize, s.custom);
    CurrentSizeKnown(s.key, templateSize, s.custom);
    ExtractSerialized(doc, current, s.key);
  }
}
