# Invitation editor core in Dafny

This project models the bookkeeping core of an invitation-card maker. The core has
two halves.

The first is a browser editor built on a fabric.js canvas:

- the viewport scaler that fits the logical card size into the page;
- the fit rules for overlay pictures and background pictures;
- the metadata every canvas object carries (`layerId`, `layerType`, `layerName`),
  and the layer panel with its move, toggle, delete and rename operations;
- the registry of animated GIF sessions, keyed by layer id;
- the background life cycle, including stale completions and "reset background";
- saving a design and loading it again;
- the size presets of the editor page: tolerance matching, the deduplicated option
  list, resolving the current size from a size key, and restoring the key from a
  saved document;
- normalisation of Tenor search results and the choice between the search and
  trending endpoints.

The second is the Flask back end's request handling:

- registration with email normalisation and a duplicate check;
- the partial update of a design;
- guest creation, update and deletion;
- RSVP creation;
- the ownership checks that answer 404 for another user's design.

Everything is modelled as immutable datatypes and pure functions:

- The canvas is an `Editor` record holding the object stack as a `seq<Layer>`,
  a background record and the GIF `Player`.
- The player is a `map` from layer id to session, together with a map of GIF
  downloads. Download completions (load, error, abort) are explicit events.
  Whether the decoder exposes its request object (`giflerInstance.xhr`) is a flag
  of the player. Only an exposed request is kept in the session, can be aborted,
  and has error and abort listeners.
- The database is four `map<nat, _>` tables.
- A request body is a `map<string, Json>`.

In the JavaScript sources, `undefined`, `null` and `''` are all falsy. The model
writes all three as `""` for strings and `0` for sizes.

Modules:

- `Wrappers`: `Option`.
- `Text`: JavaScript `trim`, Python `strip`, ASCII lower-casing.
- `Viewport`, `Fit`, `Layers`, `Document`, `GifPlayer`, `Canvas`: the editor component.
- `Sizes`: the editor page.
- `GifSearch`: the GIF picker.
- `Backend`: the API handlers.

Four behaviours of the editor are worth knowing before reading the model:

- **Background requests.** A later background request does not necessarily win.
  The stale check in `applyBackgroundFromSource` compares the captured canvas with
  itself, so the only effective test is whether that canvas is still ready.
  Whichever load *completes* last stays (`Canvas.LastCompletionWins`).
- **Template backgrounds on load.** Loading a design does not look a template
  background up again in the current template. The saved picture is restored as
  saved. The template's URL is used only to decide whether to offer
  "reset background" when the saved background has no tag
  (`Document.CustomAfterLoad`).
- **Teardown.** Tearing the editor down does not cancel GIF downloads in flight.
  See "## Findings".
- **Hidden requests.** When the decoder does not expose its request, stopping a
  GIF cannot cancel its download, and a failed download leaves its session in
  place (`GifPlayer.StopThenLateLoadUnexposed`).

## Model

| member | source | states |
|---|---|---|
| Text.Trim | backend/app.py:261 | The result has no leading or trailing space, is no longer than the input, and is empty exactly when the input is all spaces. JavaScript `trim` and Python `strip` are separate dialects. |
| Text.TrimSlice | backend/app.py:261 | The trimmed string is the contiguous slice that starts after the leading spaces. Every character cut off on either side is a space. |
| Text.TrimIdempotent | backend/app.py:261 | Stripping an already stripped string changes nothing. |
| Text.Lower | backend/app.py:88 | Lower-casing keeps the length and lower-cases each character on its own: an upper-case ASCII letter becomes the letter 32 code points above it, and every other character is kept. |
| Text.LowerChar | backend/app.py:88 | An upper-case ASCII letter becomes its lower-case letter, 32 code points above. Every other character is unchanged. |
| Text.LowerAgrees | backend/app.py:88 | Two strings of equal length whose characters agree once lower-cased lower-case to the same string, so the letter case of an email does not matter. |
| Text.LowerIdempotent | backend/app.py:88 | Lower-casing twice is lower-casing once. |
| Text.LowerEmpty | backend/app.py:88-90 | A lower-cased email is empty exactly when the stripped email was empty, so the 400 check sees the same emptiness. |
| Viewport.Round | frontend/src/components/CanvasEditor.jsx:113-114 | `Math.round` yields the integer within half a unit of its argument. |
| Viewport.RoundMonotone | frontend/src/components/CanvasEditor.jsx:113-114 | Rounding preserves order, so a smaller scaled width never displays larger. |
| Viewport.AvailableWidth | frontend/src/components/CanvasEditor.jsx:100-110 | The available width is the parent's inner width or the window width minus the 64 px gutter, never below 240. A headless editor uses the logical width. |
| Viewport.Zoom | frontend/src/components/CanvasEditor.jsx:111 | Zoom is clamped to [0.1, 1]. It is 1 exactly when the space is at least the logical width, 0.1 exactly when the space is at most a tenth of it, and in between the scaled width equals the space. |
| Viewport.Recompute | frontend/src/components/CanvasEditor.jsx:95-117 | Nothing is computed without a ready canvas and a non-zero size. Otherwise the backing store is exactly the logical size and the zoom lies in [0.1, 1]. The displayed box is the logical size times the zoom, rounded, so it is no larger than the logical box and no wider than the available space. |
| Viewport.ScaledBounds | frontend/src/components/CanvasEditor.jsx:113-114 | A positive dimension scaled by an admissible zoom and rounded stays between 0 and the dimension. |
| Viewport.FitsAvailable | frontend/src/components/CanvasEditor.jsx:111-113 | When the space is at least a tenth of the logical width, the displayed width does not exceed the rounded available width. |
| Fit.Overlay | frontend/src/components/CanvasEditor.jsx:373-382 | Scaling is uniform. With positive sizes the picture fits within 60% of the canvas in both directions, is never enlarged, and is centred. Without measurements the fallback placement is used. |
| Fit.Cover | frontend/src/components/CanvasEditor.jsx:399-408 | Scaling is uniform. With positive sizes the picture covers the whole canvas and is centred. Without measurements it falls back to width scaling, or leaves the picture as loaded. |
| Layers.FallbackName | frontend/src/components/CanvasEditor.jsx:148-153 | A GIF layer is named "GIF Layer". Otherwise the name is "Text Layer" exactly for text-typed layers or textboxes, and "Image Layer" for the rest. |
| Layers.RenameFallback | frontend/src/components/CanvasEditor.jsx:764 | The rename fallback is "Text Layer" exactly for text layers and "Image Layer" for everything else, GIF layers included. |
| Layers.EnsureMetadata | frontend/src/components/CanvasEditor.jsx:140-157 | Afterwards the object has id, type and name. An existing value is never overwritten. A missing id comes from the timestamp, a missing type is "text" for textboxes and "image" otherwise, and a missing name follows the type. Nothing else changes. |
| Layers.EnsureMetadataIdempotent | frontend/src/components/CanvasEditor.jsx:140-157 | Filling metadata twice gives the same object as once, whatever the second timestamp. |
| Layers.Find | frontend/src/components/CanvasEditor.jsx:528-534 | The lookup yields the first object with the id, or nothing exactly when no object has it. |
| Layers.Move | frontend/src/components/CanvasEditor.jsx:735-742 | Moving permutes the stack. An unknown id or direction changes nothing. "up" swaps the layer with the one above it, if any, and "down" with the one below it. |
| Layers.MoveUpThenDown | frontend/src/components/CanvasEditor.jsx:735-742 | With unique ids, moving a layer up and then down restores the stack. |
| Layers.MoveDownThenUp | frontend/src/components/CanvasEditor.jsx:735-742 | With unique ids, moving a layer down and then up restores the stack. |
| Layers.Toggle | frontend/src/components/CanvasEditor.jsx:744-750 | An unknown id changes nothing. Otherwise only the first matching layer changes, and only its visibility flips. |
| Layers.ToggleTwice | frontend/src/components/CanvasEditor.jsx:744-750 | Toggling twice restores the stack. |
| Layers.Delete | frontend/src/components/CanvasEditor.jsx:752-759 | An unknown id changes nothing. Otherwise exactly the matching layer is removed, the others keep their order, and with unique ids the id is gone afterwards. |
| Layers.Rename | frontend/src/components/CanvasEditor.jsx:761-766 | An unknown id changes nothing. Otherwise only the layer's name changes: to the trimmed new name, or to the rename fallback when that is empty. A stored name is never empty. |
| Layers.Shown | frontend/src/components/CanvasEditor.jsx:311-313 | The panel's objects are exactly the canvas objects other than the background picture. |
| Layers.EntryOf | frontend/src/components/CanvasEditor.jsx:314-326 | A panel entry carries the layer's id, its visibility and its paint position, and a non-empty name. A stored name or type is shown as stored. |
| Layers.ActiveId | frontend/src/components/CanvasEditor.jsx:328-330 | There is no active id when nothing is selected or the background is selected. Otherwise the active id is the id of the selected object. |
| Layers.Rows | frontend/src/components/CanvasEditor.jsx:314-327 | One row per shown layer, in reverse paint order: row `k` describes the layer painted at position `n - 1 - k`. |
| Layers.Refresh | frontend/src/components/CanvasEditor.jsx:308-331 | The panel lists the shown objects front to back, each with its paint index, and reports the active id. |
| Document.WithSize | frontend/src/pages/Editor.jsx:184-193 | Stamping a size sets the top-level width and height and the meta's base size and size key. Other meta keys, the objects and the background are kept. |
| Document.WithSizeTwice | frontend/src/pages/Editor.jsx:184-193 | Stamping twice is the same as stamping the second size once. |
| Document.Snapshot | frontend/src/components/CanvasEditor.jsx:8-16 | Saving keeps every object in order, each with its exported properties. |
| Document.Restore | frontend/src/components/CanvasEditor.jsx:465 | Loading recreates the saved objects in order under fresh consecutive identities. |
| Document.RoundTrip | frontend/src/components/CanvasEditor.jsx:8-16 | Saving and loading a stack gives back the same layers (kind, metadata, visibility, GIF source, transform). Only identities are fresh. |
| Document.CustomAfterLoad | frontend/src/components/CanvasEditor.jsx:475-487 | After loading, "reset background" is offered never without a background. For a tagged background it is offered exactly when the tag is "custom". For an untagged one it is offered exactly when its source and the template URL are both set and differ. |
| GifPlayer.Stop | frontend/src/components/CanvasEditor.jsx:159-173 | Stopping removes the id's session and halts its runner. It aborts the session's request only when the session holds one. An empty or unknown id changes nothing. |
| GifPlayer.StopIdempotent | frontend/src/components/CanvasEditor.jsx:159-173 | Stopping twice is the same as stopping once. |
| GifPlayer.Start | frontend/src/components/CanvasEditor.jsx:182-226 | Nothing happens without a ready canvas, a source, the decoder library or a layer id. Without a drawing context only the old session is stopped. Otherwise the old session is stopped first and a new session with a fresh in-flight download is registered. The session holds the request only when the decoder exposes it. |
| GifPlayer.Load | frontend/src/components/CanvasEditor.jsx:235-262 | A completed download that is still in flight starts a runner and rewrites its layer's session, holding the request only when the decoder exposes it. A download that is no longer in flight is ignored. |
| GifPlayer.Fail | frontend/src/components/CanvasEditor.jsx:228-233 | A failed or aborted download that is still in flight is marked failed. Its layer's session is dropped only when the request is exposed, since only an exposed request has the error and abort listeners. Otherwise nothing changes. |
| GifPlayer.Clear | frontend/src/components/CanvasEditor.jsx:175-180 | Clearing, as written, empties the registry and halts every runner. It leaves the downloads untouched. |
| GifPlayer.ClearAndAbort | frontend/src/components/CanvasEditor.jsx:159-180 | The corrected clear empties the registry and aborts every request a session holds. Other downloads are kept. |
| GifPlayer.InitialInv | frontend/src/components/CanvasEditor.jsx:82 | The empty registry satisfies the registry invariant. A session holds a request exactly when the decoder exposes it. With an exposing decoder, every in-flight download is the request of its layer's session. |
| GifPlayer.AtMostOneInFlight | frontend/src/components/CanvasEditor.jsx:196-226 | With an exposing decoder and the invariant, no layer has two downloads in flight. |
| GifPlayer.StopKeepsInv | frontend/src/components/CanvasEditor.jsx:159-173 | Stopping preserves the registry invariant. |
| GifPlayer.StartKeepsInv | frontend/src/components/CanvasEditor.jsx:182-226 | Starting preserves the registry invariant. |
| GifPlayer.LoadKeepsInv | frontend/src/components/CanvasEditor.jsx:235-262 | A load event preserves the registry invariant. |
| GifPlayer.FailKeepsInv | frontend/src/components/CanvasEditor.jsx:228-233 | An error or abort event preserves the registry invariant. |
| GifPlayer.ClearAndAbortKeepsInv | frontend/src/components/CanvasEditor.jsx:175-180 | The corrected clear preserves the invariant. With an exposing decoder it leaves nothing in flight. |
| GifPlayer.StartReplaces | frontend/src/components/CanvasEditor.jsx:196-226 | After a successful start the layer has exactly one session, playing the new source, and the new download is in flight. The previous session's request, if it held one, is no longer in flight and its runner is halted. Other layers' sessions are untouched. With an exposing decoder the session holds the new request, and it is the only download in flight for that layer. |
| GifPlayer.QuietStaysQuiet | frontend/src/components/CanvasEditor.jsx:228-262 | When no download is in flight, no sequence of late load, error or abort events changes the player. |
| GifPlayer.TeardownIsFinal | frontend/src/components/CanvasEditor.jsx:175-180 | With an exposing decoder, after the corrected clear no sequence of late events brings a session back. |
| GifPlayer.Deliver | frontend/src/components/CanvasEditor.jsx:228-262 | A sequence of late loads and failures issues no new request. A request in flight afterwards was in flight before, unchanged. |
| GifPlayer.DeliverKeepsInv | frontend/src/components/CanvasEditor.jsx:228-262 | A sequence of late loads and failures keeps the registry invariant. |
| GifPlayer.ClearThenLateLoad | frontend/src/components/CanvasEditor.jsx:175-180 | As written: start a GIF, clear, then deliver the pending load, and a session is registered again. |
| GifPlayer.StopThenLateLoadUnexposed | frontend/src/components/CanvasEditor.jsx:159-173 | With a decoder that hides its request, stopping a layer cannot abort its download. The late load registers the session again, and a failure leaves the session in place. |
| Canvas.StartGif | frontend/src/components/CanvasEditor.jsx:182-226 | Starting playback on a layer updates the player. The target is tagged with layer type "gif" and the source only when there are a ready canvas, a source, the decoder library, a layer id and a drawing context. Otherwise only the player changes. No other object or editor field changes. |
| Canvas.OnAdded | frontend/src/components/CanvasEditor.jsx:337-344 | An added object becomes exactly its metadata-filled self, keeping its identity. The objects below it are untouched, and only the objects and the GIF registry change. |
| Canvas.AddOverlay | frontend/src/components/CanvasEditor.jsx:371-391 | Without a ready canvas nothing happens. Otherwise the picture is placed with the overlay fit, pushed on top with metadata, and selected. |
| Canvas.AddGif | frontend/src/components/CanvasEditor.jsx:619-676 | A GIF without a URL, or a canvas that is not ready, changes nothing. Otherwise one overlay layer is pushed on top and selected, keeping every existing layer. It has metadata, type "gif", the name "GIF Layer", the chosen URL as its source and the overlay scale. With a usable decoder and context, that layer plays its URL. |
| Canvas.AddGifHasOneSession | frontend/src/components/CanvasEditor.jsx:650-662 | After adding a GIF, its layer has exactly one session, playing the chosen source, and the registry invariant holds. With an exposing decoder the session's request is in flight and is the layer's only download in flight. With a decoder that hides its request, the session holds none. |
| Canvas.DeleteLayer | frontend/src/components/CanvasEditor.jsx:752-759 | Deleting an unknown id changes nothing. Otherwise the layer leaves the stack, the selection is dropped, and a GIF layer's session is stopped, as the remove handler does (lines 345-351). |
| Canvas.DeleteGifStopsPlayback | frontend/src/components/CanvasEditor.jsx:345-351 | After deleting a GIF layer, no session for its id remains. |
| Canvas.MoveLayer | frontend/src/components/CanvasEditor.jsx:735-742 | Moving changes only the object stack, which stays a permutation of the old one. An unknown id changes nothing. |
| Canvas.ToggleLayer | frontend/src/components/CanvasEditor.jsx:744-750 | Toggling changes only the object stack, keeps its length, and changes no object in anything but its visibility. An unknown id changes nothing. |
| Canvas.RenameLayer | frontend/src/components/CanvasEditor.jsx:761-766 | Renaming changes only the object stack, keeps its length, and changes no object in anything but its name. A changed name is never empty. An unknown id changes nothing. |
| Canvas.PanelOpsKeepIdentity | frontend/src/components/CanvasEditor.jsx:735-766 | Moving permutes the objects. Toggling and renaming keep the stack's length and every object's identity, canvas type, layer id, layer type and GIF source in place. |
| Canvas.BeginBackground | frontend/src/components/CanvasEditor.jsx:393-396 | A background load starts only with a ready canvas and a source, and it remembers which canvas it was started on. |
| Canvas.CompleteBackground | frontend/src/components/CanvasEditor.jsx:396-428 | A failed load changes nothing. A completion for another or disposed canvas is discarded. Otherwise the picture cover-fits the current logical size, is centred, is neither selectable nor evented, carries its tag, and replaces the background. "Reset background" is offered exactly for a custom picture. Nothing else changes. |
| Canvas.BackgroundNotALayer | frontend/src/components/CanvasEditor.jsx:308-331 | The new background gets a fresh identity. It never appears in the layer panel, and the panel still shows every object. |
| Canvas.LastCompletionWins | frontend/src/components/CanvasEditor.jsx:393-398 | Two background loads on the same canvas that complete in either order leave the one that completed last. |
| Canvas.ResetBackground | frontend/src/components/CanvasEditor.jsx:678-688 | Resetting needs a ready canvas and a template picture, and it reloads that picture tagged "template". |
| Canvas.ResetRestoresTemplate | frontend/src/components/CanvasEditor.jsx:678-688 | After a custom background, a reset brings back the template picture and withdraws the reset offer. |
| Canvas.Save | frontend/src/components/CanvasEditor.jsx:706-725 | The saved document holds the object snapshot and the background. The size is the editor's logical size, falling back per dimension to the template's size and then to 1200 × 1800, and it is stamped with the size key. The title is the design's own title when it has one, else "<template name or Invitation> - <suffix>", so it is never empty. The template id is the template's when set, else the design's, else 0. |
| Canvas.StartAll | frontend/src/components/CanvasEditor.jsx:488-492 | The load callback's loop over the objects changes only the GIF registry. |
| Canvas.StartAllCovers | frontend/src/components/CanvasEditor.jsx:488-492 | After a load, every GIF layer with a source is playing its source. |
| Canvas.AddSaved | frontend/src/components/CanvasEditor.jsx:337-344 | Inserting saved objects keeps the objects below them. On top come the restored saved objects, under the next identities, each with its metadata filled in from its own stamp by the `object:added` handler. Only the objects, the identity counter and the registry change. |
| Canvas.LoadDocument | frontend/src/components/CanvasEditor.jsx:435-494 | A canvas that is not ready is left alone. Otherwise the stack is exactly the restored saved objects in order, under fresh identities, with their metadata filled in. The saved background comes back with its tag, placement and flags, or there is none. The selection is cleared and the reset offer follows the saved background. The logical size and canvas are kept, and identities stay fresh and apart from the background. With unique ids, every GIF layer with a source is playing it. |
| Canvas.RevivedSnapshot | frontend/src/components/CanvasEditor.jsx:140-157 | A saved layer that already had its metadata comes back from restoring and the `object:added` fill unchanged, apart from its identity. |
| Canvas.ReloadedLayers | frontend/src/components/CanvasEditor.jsx:435-494 | Loading the snapshot of layers that carry their metadata gives the same layers back in order, apart from identities. |
| Canvas.SaveLoadRoundTrip | frontend/src/components/CanvasEditor.jsx:706-725 | For layers with unique ids and metadata, saving and then loading into a ready editor gives the same layers in the same order. It also gives the same background (source, tag, placement, flags) and the same reset offer, and every GIF layer plays again. |
| Canvas.AddOverlayKeepsFresh | frontend/src/components/CanvasEditor.jsx:371-391 | Adding an overlay keeps every identity in use below the counter and apart from the background. |
| Canvas.CompleteBackgroundKeepsFresh | frontend/src/components/CanvasEditor.jsx:396-428 | Applying a background keeps every identity in use below the counter and apart from the objects. |
| Canvas.DeleteLayerKeepsFresh | frontend/src/components/CanvasEditor.jsx:752-759 | Deleting a layer keeps every identity in use below the counter and apart from the background. |
| Canvas.FallbackNotice | frontend/src/components/CanvasEditor.jsx:570-575 | After a failed upload, the local-copy notice asks the user to log in exactly when the server answered 401. |
| Sizes.MatchPreset | frontend/src/pages/Editor.jsx:20-29 | There is a match exactly when both dimensions are non-zero and some preset lies within 4 px in both. A match is a preset within tolerance. |
| Sizes.PresetsApart | frontend/src/pages/Editor.jsx:10-18 | No size is within tolerance of two different presets, so the first match is the only one. |
| Sizes.PresetMatchesItself | frontend/src/pages/Editor.jsx:20-29 | Every preset matches itself. |
| Sizes.PresetById | frontend/src/pages/Editor.jsx:126 | Looking up a preset id yields a preset with that id exactly when one exists. |
| Sizes.TemplateSize | frontend/src/pages/Editor.jsx:63-66 | The template has a size exactly when both its width and height are non-zero. |
| Sizes.AddOption | frontend/src/pages/Editor.jsx:70-79 | An option is appended exactly when no entry is already within tolerance. Either way the list stays free of near-duplicates and covers the option's size. |
| Sizes.AddPresetsCovers | frontend/src/pages/Editor.jsx:90-97 | After the preset pass, every preset's size is covered by some entry. |
| Sizes.SizeOptions | frontend/src/pages/Editor.jsx:68-117 | The list has no two entries within tolerance. The template entry, if any, comes first. Every preset and the custom size are covered. Every entry is the template, a preset, or the disabled custom entry. |
| Sizes.AssembledListed | frontend/src/pages/Editor.jsx:81-114 | When the template entry, the preset entries and the custom entry are assembled in that order, the template entry stays first and every entry is listed. |
| Sizes.ListedOption | frontend/src/pages/Editor.jsx:68-117 | An entry of the list is disabled exactly when it is the custom entry. Its id is "template", "custom" or a preset id. |
| Sizes.CurrentSize | frontend/src/pages/Editor.jsx:119-133 | "template" or an empty key gives the template size, else 1200 × 1800. "custom" with a custom size gives that size. A preset id gives the preset's size. Any other key falls back to the template, then the custom size, then 1200 × 1800. |
| Sizes.CurrentSizeKnown | frontend/src/pages/Editor.jsx:119-133 | When the template and custom sizes are non-zero, the current size is non-zero. |
| Sizes.HandleSizeChange | frontend/src/pages/Editor.jsx:135-150 | "template" and preset ids set the key and clear the custom size. "custom" switches only when a custom size exists. Any other value changes nothing. |
| Sizes.HandleSizeChangeConsistent | frontend/src/pages/Editor.jsx:135-150 | Size changes keep the state consistent: the key is "custom" exactly when a custom size is set. |
| Sizes.TemplateEffect | frontend/src/pages/Editor.jsx:167-178 | Without a template size, or with a saved invite, the key is left alone. Otherwise the key becomes the matching preset, or "template", and the custom size is cleared. |
| Sizes.ExtractSize | frontend/src/pages/Editor.jsx:34-41 | A missing document has no size. Otherwise the meta's base size and key are preferred over the top-level width and height. |
| Sizes.MatchOrCustom | frontend/src/pages/Editor.jsx:388-396 | A saved size becomes the matching preset's key, or a custom size with the saved dimensions. |
| Sizes.Restore | frontend/src/pages/Editor.jsx:370-400 | The invite document is preferred over the RSVP document. A saved "custom" key with dimensions gives custom. A known preset key gives that preset. Otherwise a tolerance match is tried, and failing that the result is custom. The restored state is consistent and never "template". |
| Sizes.Serialize | frontend/src/pages/Editor.jsx:180-199 | With a known current size, the document is stamped with that size and key. Otherwise it is left as exported. The objects are never touched. |
| Sizes.ExtractSerialized | frontend/src/pages/Editor.jsx:34-41 | Reading back a stamped document yields exactly the stamped size and key. |
| Sizes.SaveRestoreRoundTrip | frontend/src/pages/Editor.jsx:180-199 | Saving and restoring brings back a preset or custom key unchanged. The template key comes back as the preset or custom size it stood for. |
| GifSearch.FirstUrl | frontend/src/components/GifPickerModal.jsx:13-24 | The `\|\|` chain yields the first non-empty URL, and is empty exactly when all are empty. |
| GifSearch.FormatsOf | frontend/src/components/GifPickerModal.jsx:8-11 | `media_formats` takes precedence over `media[0]`, and with neither there are no formats. |
| GifSearch.Extract | frontend/src/components/GifPickerModal.jsx:7-32 | A result has no GIF exactly when none of the four formats has a URL. The full URL follows gif > mediumgif > tinygif > nanogif and the preview follows tinygif > nanogif > mediumgif > gif. Id and description are kept, and both URLs are non-empty. |
| GifSearch.PreviewWhenFull | frontend/src/components/GifPickerModal.jsx:13-26 | The preview chain is empty exactly when the full chain is, so the preview never needs its fallback to the full URL. |
| GifSearch.EndpointFor | frontend/src/components/GifPickerModal.jsx:79-85 | A blank term selects trending. Otherwise search is used with `q` equal to the trimmed, non-empty term. |
| GifSearch.EndpointIgnoresPadding | frontend/src/components/GifPickerModal.jsx:79-85 | Padding a term with spaces does not change the endpoint. |
| GifSearch.QueryAfter | frontend/src/components/GifPickerModal.jsx:96-98 | The box is reset to "celebration" only after the initial trending load. |
| GifSearch.NormalisedFromResults | frontend/src/components/GifPickerModal.jsx:91-94 | Every shown GIF comes from some result. |
| GifSearch.ResultsOnPage | frontend/src/components/GifPickerModal.jsx:91-94 | Every result that yields a GIF is shown. |
| GifSearch.CollectResults | frontend/src/components/GifPickerModal.jsx:91-94 | A missing result list gives no GIFs. Otherwise the extractions are kept in order with empty ones dropped, no more than there were results, each with both URLs. |
| Backend.Get | backend/app.py:261 | A missing key reads as JSON null. |
| Backend.Stripped | backend/app.py:261 | A falsy value reads as "" and a string reads as its stripped self. A truthy non-string cannot be stripped, and the server fails with 500. The result is already stripped. |
| Backend.Optional | backend/app.py:264-265 | An empty string is stored as none, and anything else is stored as is. |
| Backend.DumpFabric | backend/app.py:39-40 | Only a null document is stored as a null column. A document is never stored as empty text. |
| Backend.LoadFabric | backend/app.py:42-43 | A null or empty column loads as null. A dumped document loads as itself. |
| Backend.FabricRoundTrip | backend/app.py:39-43 | Loading a dumped document gives the document back. |
| Backend.Largest | backend/app.py:279-280 | The largest id is an upper bound of the ids and belongs to a non-empty set. |
| Backend.NextId | backend/app.py:279-280 | A new row gets a positive id not in use and above every existing one. |
| Backend.Register | backend/app.py:85-98 | A missing body or an unreadable email gives 500. An empty email or password gives 400. A taken normalised email gives 409. A truthy password that is not a string then gives 500 when it is hashed. Otherwise one user is added with the stripped, lower-cased email. Any failure leaves the database unchanged. |
| Backend.RegisterKeepsEmailsUnique | backend/app.py:92-96 | Registration keeps the stored emails unique. |
| Backend.SameAddressAnyCase | backend/app.py:88 | Two emails that, once stripped, differ only in the case of their ASCII letters normalise to the same address. |
| Backend.RegisterTwice | backend/app.py:88-98 | A string email that is non-empty and free once normalised, with a non-empty string password, registers successfully. Registering the same normalised email again then gives 409. |
| Backend.GetDesign | backend/app.py:175-188 | A design that is missing or owned by another user gives 404. Otherwise the design's fields are returned, with its documents loaded. |
| Backend.PatchDesign | backend/app.py:198-200 | Only the title and the two documents whose keys are present change. Owner and template are kept. |
| Backend.UpdateDesign | backend/app.py:190-202 | A foreign or missing design gives 404, checked before a missing body gives 500. The update succeeds exactly for an owned design with a body, and only that design changes. A failure changes nothing. |
| Backend.UpdateThenGet | backend/app.py:175-202 | After an update, reading the design shows the patched fields, and the other designs are as before. |
| Backend.CreateGuest | backend/app.py:257-282 | A blank name gives 400 before ownership is checked. With a readable non-blank name and readable contact and comment, a missing or foreign design gives 404. Success, with 201, happens exactly for a readable non-blank name, readable contact and comment, and an owned design. The new guest is stored under the next id with stripped fields, empty contact and comment as none, and a truthy `is_confirmed` as a bool. |
| Backend.PatchGuest | backend/app.py:297-307 | The patch fails exactly when a present name is blank or unreadable, or a present contact or comment is unreadable. Otherwise only fields whose keys are present change, in their stripped or none form, and a valid guest stays valid. |
| Backend.UpdateGuest | backend/app.py:285-311 | A missing guest or a foreign design gives 404. A blank name gives 400. Success happens exactly when the guest is reachable and the patch applies, and only that guest changes. A failure changes nothing. |
| Backend.DeleteGuest | backend/app.py:314-326 | A guest that is missing or on a foreign design gives 404. Otherwise exactly that guest is removed. |
| Backend.GuestRequestsKeepGuestsValid | backend/app.py:257-326 | Creating, updating and deleting guests keeps every stored guest with a non-empty stripped name and no empty contact or comment. |
| Backend.ForeignDesignLooksMissing | backend/app.py:290-295 | For guest create, update and delete, a design owned by someone else gets the same reply as a design that does not exist. |
| Backend.CreateResponse | backend/app.py:329-358 | A blank name or phone gives 400. With readable fields and a non-blank name and phone, a missing design gives 404, with no ownership check. Success happens exactly for readable fields with a non-blank name and phone and an existing design. The response is stored under the next id, with an empty message as none. |

## Left out

- Rendering: fabric.js drawing, `setDimensions`, DOM style writes and `renderAll` are side effects of libraries and the browser. The canvas is the abstract `Editor` record.
- Real-number effects: floating-point rounding of the zoom and fit arithmetic, and `parseFloat` of the CSS padding, are out. Zoom and fit are computed over exact reals and `Math.round` is specified by its half-unit bound. The padding arrives as a number.
- Foreign code and I/O: GIF frame decoding (gifler), XHR transport internals, `requestAnimationFrame`, `FileReader`, the `fetch` calls to Tenor and to the upload endpoint are foreign code or I/O. Downloads are abstract handles whose load, error and abort are events. Whether the decoder exposes its request is a fixed flag of the player, not read from the library. An upload is reduced to the 401 versus other-status choice of notice.
- `Canvas.LoadDocument`: restores the saved background record as saved rather than re-running the picture loader, which is a fabric.js deserialisation detail. The logical size stays the one the bootstrap set from the page's resolved size. The default text box of an empty design is not modelled. The registry is cleared by the as-written `clearGifAnimations`, so downloads from the previous scene stay in flight (see "## Findings").
- `Canvas.SaveLoadRoundTrip`: covers layers that carry their metadata and unique ids, as every layer added through the editor does. A saved layer without metadata comes back with freshly filled-in metadata, not as saved.
- `GifPlayer.TeardownIsFinal`: holds only for a decoder that exposes its request. With a hidden request no clear can cancel a download, and `GifPlayer.StopThenLateLoadUnexposed` shows a late load bringing a session back.
- React: hook scheduling and effect ordering are out. Each effect is a function of its inputs. Translation with `t(...)` is the identity.
- `selectLayer`: a selection side effect of fabric.js with no bookkeeping of its own.
- Default text: the default textbox for an empty design (CanvasEditor.jsx lines 496-511) is fabric.js construction and is not modelled.
- Search details: the abort of a superseded Tenor search and its `AbortError` handling are left out. The URL parameters (`limit=24`, `media_filter=minimal`) appear only as constants.
- Back-end infrastructure: SQLAlchemy sessions, JWT issuing and checking, Flask routing and JSON decoding are out. The user id arrives as a parameter, the request body as an optional `map<string, Json>`, and the password hash as an opaque string.
- JSON numbers: they are integers. Non-object request bodies are not modelled.
- Timestamps: `created_at` columns and the `Date.now()` object stamps are out. The stamp is a parameter.
- Column constraints and type coercion by the database are not modelled. The visible consequence: `update_design` with `{"title": null}` or a null `fabric_json` answers 200 in the model, whereas the NOT NULL `title` and `fabric_json` columns (backend/models.py:30-31) make the commit fail and the request end in 500.
- Other endpoints: `login`, `create_design`, the list endpoints, `get_rsvp_info` and `upload` are outside this model. Their validation repeats the patterns that are modelled.
- `Text.Lower`: lower-cases ASCII letters only, whereas Python's `str.lower` also maps other Unicode letters.
- `Text.Trim`: treats a fixed set of ASCII and common Unicode spaces as whitespace for each dialect, not the full Unicode whitespace tables of JavaScript and Python.
- `Fit.Cover`: when the image or canvas width is zero, fabric.js `scaleToWidth` divides by zero. The model leaves the picture as loaded in that case.
- `Viewport.Recompute`: `recomputeViewport` returns `undefined` without a ready canvas. The model returns `None`.

## Findings

| source | as written | input that shows it | evidently intended | confidence | as-written member | corrected member |
|---|---|---|---|---|---|---|
| frontend/src/components/CanvasEditor.jsx:175-180 | Clearing the GIF registry halts every runner and empties the map. It does not abort the pending download of a session still loading. | Start a GIF on layer "a", so its download is in flight. Tear the editor down, then let the download complete. The load handler registers a new session for "a" on the torn-down editor. | Teardown also aborts each session's download, as `stopGifAnimation` does, so no late event can revive a session. | medium, not executed | GifPlayer.ClearThenLateLoad | GifPlayer.TeardownIsFinal |
