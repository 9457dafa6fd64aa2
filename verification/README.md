# Hypercolor models

Dafny models of the parts of Hypercolor whose correctness is an argument rather
than a look at one function: the preference file shared by several processes, the
content-addressed blob store, the compositor and colour conversions, the tray's
event stream, canvas capture, four text machines, the schema graph of the API
reference and the soak test's latency percentile. `dafny verify dfyconfig.toml`
checks everything.

| files | subject |
|---|---|
| `Preferences`, `PreferenceProtocol`, `PreferenceTheorems` | preference transactions: the store's methods, a step system with any number of processes and crashes, and what every run guarantees |
| `BlobWorld`, `BlobOutcomes`, `BlobStore` | the blob store and its two caches in a file system that others change before any call, said on the record of all worlds the store passed through |
| `Powers`, `Transfer` | the sRGB curve of IEC 61966-2-1 and its quantizers |
| `BlendKernel`, `Compositor`, `CompositorBuffers`, `InPlaceBlend`, `OpaqueBlend`, `BlendLaws` | the float kernel, the byte reference, the tables and the in-place loops, and the laws that say what each blend mode is |
| `HueWave`, `LayerHsl`, `ColorConvert` | the three HSL and HSV pairs |
| `TrayState`, `TrayProtocol`, `TrayTheorems` | the tray's fields and the event stream in every interleaving |
| `CanvasCapture` | burst capture over a watch channel |
| `Multipart` | the CLI's upload body and its reader (section 5.1.1 of RFC 2046) |
| `TomlScan`, `TomlValue`, `TomlRoundTrip`, `TomlDocument`, `TomlNumbers`, `TomlFile`, `TomlAcceptance` | the vendor-file reader (String and Array sections of TOML v1.0.0) |
| `CodeSpans`, `SpanTheorems` | Markdown code spans (section 6.1 of CommonMark 0.31) |
| `RustMask`, `MaskForms`, `MaskTheorems`, `MaskTwice` | the Rust source masker, against a grammar of comments and literals |
| `SchemaGraph`, `SchemaGroups` | schema reachability and grouping |
| `Histogram` | the p95 of a cumulative-histogram difference |

Code that works by changing things is modelled by classes and loops and tied to
specification functions; the theorems are about those. Input, output, clocks and
other programs are nondeterministic steps or parameters; floats are exact reals.
What other programs and threads do, which system calls fail and what the render
thread does are function parameters of the blob store and the canvas capture, so
their contracts hold for every environment, and the states a call passed through
are recorded so that a contract can point at them.

Assumptions that stand for code outside the models: a TOML print and parse round
trip and an atomic rename for preferences; a digest function for blobs; a change
stamp that names one version of one file, as its documentation promises
(`crates/hypercolor-platform-fs/src/lib.rs:198-202`); and exact roots for the
transfer curve, given by their defining equations.

Where code and documentation differ, the models follow the code:

- `durable_replace` can fail after its rename
  (`crates/hypercolor-platform-fs/src/unix.rs:57-65`), so a failed `persist` may
  still have changed the file. The step system has that outcome.
- The encoding curve steps down by about 3e-8 where its two branches meet, so it is
  not monotone: `Transfer.EncodeIsNotMonotone` is an input and
  `Transfer.EncodeMonotone` the exact condition. `Transfer.Gentle` states the slope
  bound with that allowance, and the byte round trip holds all the same.
- The multipart writer cleans the file name but not the content type.
  `Multipart.ContentsComeBack` gives the exact condition and
  `Multipart.BlankLineBreaksUpload` an input.
- The backslash-counting quote scans treat a quote outside any string as escaped
  when backslashes precede it. `TomlScan.ScansAgree` gives the exact condition.
- The masker keeps offsets only under the two conditions of `RustMask.LengthKept`
  and `RustMask.NewlinesKept`. Masking its own output again is not always harmless:
  `MaskTwice.MaskingTwice` gives the exact condition, `MaskTwice.SecondPassDiffers` an input.
- The group names `shared`, `envelope` and `unreferenced` share their name space
  with tags. `SchemaGroups.GroupMeans` says what each group then means.
- `code` of an empty text is not a code span (`CodeSpans.EmptyCodeIsText`), and a
  renderer takes a space off each end of some texts (`CodeSpans.CodeReadsBack`).

The blend loop for opaque layers looks at no alpha at a partial opacity, as its name
says; `OpaqueBlend.FadeAgrees` and `OpaqueBlend.TransparentIsPainted` say what follows
for other layers.

## Model

| member | source | states |
|---|---|---|
| `Preferences.ReadDocument` | crates/hypercolor-core/src/client_preferences.rs:169-194 | A missing file reads as an empty document with default preferences, an unparseable one or one with a wrongly typed owned key as an error; otherwise the two owned keys decide the preferences. |
| `Preferences.Edited` | crates/hypercolor-core/src/client_preferences.rs:110-136 | Writing a candidate sets or removes exactly the two owned keys; reading the result back gives the candidate, and every other key keeps its value. |
| `Preferences.LastEditWins` | crates/hypercolor-core/src/client_preferences.rs:110-136 | Editing twice leaves the table that editing once with the later candidate leaves. |
| `Preferences.Prepared.Persist` | crates/hypercolor-core/src/client_preferences.rs:149-166 | A second `persist` after a durable one writes nothing; a pending shutdown writes nothing; the file becomes the payload exactly when the rename happened, and the handle becomes durable exactly when the replace succeeded. |
| `Preferences.Store.PrepareLocked` | crates/hypercolor-core/src/client_preferences.rs:110-136 | The prepared payload is the locked document with the candidate's keys in it. |
| `Preferences.Store.Prepare` | crates/hypercolor-core/src/client_preferences.rs:57-70 | Succeeds exactly when the locked value is the journal's before value (or, recovering, its candidate), conflicts exactly when it is readable and neither, and holds a payload that reads as the candidate and keeps every other key. |
| `Preferences.Store.Modify` | crates/hypercolor-core/src/client_preferences.rs:44-53 | Once the rename lands, the file reads as what the mutation makes of the preferences that were read, with every other key unchanged; otherwise it stays as it was, and success is reported exactly when the rename was also synced. |
| `PreferenceProtocol.StepKeeps` | crates/hypercolor-core/src/client_preferences.rs:33-166 | Every load, modify, prepare, persist, drop and crash step keeps the invariant tying locks, phases, file and commit log together. |
| `PreferenceProtocol.RunKeeps` | crates/hypercolor-core/src/client_preferences.rs:33-166 | The invariant holds in every state of every run, for any number of processes. |
| `PreferenceTheorems.Serializable` | crates/hypercolor-core/src/client_preferences.rs:44-166 | In every state of every run the file is the starting file with exactly the committed requests applied one after another in lock order, each admissible where it ran: no update is lost or invented. |
| `PreferenceTheorems.MutualExclusion` | crates/hypercolor-core/src/client_preferences.rs:72-91 | While one process is past its exclusive lock, every other one is idle or waiting. |
| `PreferenceTheorems.LoadsSeeCommittedDocuments` | crates/hypercolor-core/src/client_preferences.rs:33-42 | Every load returns the one whole committed document that was current when its shared lock was granted. |
| `PreferenceTheorems.LogGrows` | crates/hypercolor-core/src/client_preferences.rs:149-166 | The commit log only grows, and the file moves only when it does. |
| `PreferenceTheorems.QuietSteps` | crates/hypercolor-core/src/client_preferences.rs:138-166 | Crashes, drops, loads, prepares and a repeated durable persist leave file and log alone. |
| `PreferenceTheorems.ForeignKeysSurvive` | crates/hypercolor-core/src/client_preferences.rs:110-136 | In every run, every key other than `theme` and `show_donate` keeps its starting value. |
| `PreferenceTheorems.ModifiesTakeEffect` | crates/hypercolor-core/src/client_preferences.rs:44-53 | In every run each committed modify turned the preferences that its predecessors left into what its mutation makes of them, foreign keys unchanged, and no load is ever committed. |
| `PreferenceTheorems.RestoreCommitsOrConflicts` | crates/hypercolor-core/src/client_preferences.rs:57-70 | In every run with any other writers, each committed restore found before (or, recovering, candidate) and left the candidate; each refused one found neither. |
| `PreferenceTheorems.ConflictExactlyWhenNeither` | crates/hypercolor-core/src/client_preferences.rs:57-70 | A restore is refused with a conflict exactly when the serial file is readable and holds neither accepted value, and a refusal changes nothing and frees the lock. |
| `PreferenceTheorems.RecoveryConverges` | crates/hypercolor-core/src/client_preferences.rs:57-70 | Any number of racing, crashing, recovering reruns of one journal never conflict, always leave one of its two values, and leave the candidate once any of them has written. |
| `BlobOutcomes.CopyStep` | crates/hypercolor-core/src/portable_setup.rs:170-197 | Each read extends the copied bytes to a longer prefix of the source, however the stream is cut and whatever other programs do to other files. |
| `BlobStore.Store.CopyHashed` | crates/hypercolor-core/src/portable_setup.rs:170-197 | For every chunking, the digest and length are those of the delivered bytes, which are the whole source unless it changed; a refusal means that a call failed or that there are too many. |
| `BlobStore.Store.Read` | crates/hypercolor-core/src/portable_setup.rs:122-162 | A returned handle is at offset 0 of a regular file that the digest's name led to at a recorded step of the call and that held exactly the described bytes at a later one, cached or not. Whatever else changes in the file system: if the opened file did not, the answer is that of hashing it in full, with stamps or without, unless a call failed; so a mismatch means that its bytes do not match or that it changed, an I/O error that a call failed or no regular file was there, a changed source that it changed. In every run the bytes the file delivered decide: those of a changed source match, those of a mismatch do not or are too many, and without stamps those of a handle match. The blob is remembered. |
| `BlobStore.Store.Hashed` | crates/hypercolor-core/src/portable_setup.rs:144-162 | If the opened file does not change, the uncached half gives the full rehash's answer unless a call failed; it reports a moved stamp only if the file moved and a mismatch only of bytes delivered that do not match or are too many, and stores exactly the version it hashed in the cache. |
| `BlobStore.Store.Stage` | crates/hypercolor-core/src/portable_setup.rs:59-79 | Bytes that do not match are never published; success means that exactly the staged bytes were renamed onto their digest's name and that the name then led to a file holding them. Whatever else changes: if the renamed object stays, or nothing was renamed, matching bytes stage and all others are refused for their own reason, unless a call failed; in every run a mismatch means that the bytes do not match or that the renamed object was replaced or changed, and an invalid digest is the only manifest error. |
| `BlobStore.Store.Capture` | crates/hypercolor-core/src/portable_setup.rs:82-118 | The descriptor is that of the bytes in a regular file that the path led to at a recorded step of the call, from the cache or not, and its digest's name led to a file holding the same; at most one rename, of those bytes. Whatever else changes: if the opened file and the renamed object do not, the answer is that of hashing the path in full, with stamps or without, unless a call failed; in every run a mismatch means that the file grew too long to count or that the renamed object was replaced or changed, and a changed source that the file or the object changed. The capture is remembered. |
| `BlobStore.Store.CaptureAnew` | crates/hypercolor-core/src/portable_setup.rs:100-118 | The uncached half of capture: copied bytes of the stamped version, renamed onto their digest, read back from there and noted under the path; if the file and the renamed object do not change, the descriptor of the file's bytes unless a call failed. |
| `BlobStore.Store.CopySource` | crates/hypercolor-core/src/portable_setup.rs:100-104 | The copy is that of the stamped version or, without stamps, of the bytes the file delivered; a changed source is reported only if the file moved, a mismatch only if it grew too long to count. |
| `BlobOutcomes.HashedOfOne` | crates/hypercolor-core/src/portable_setup.rs:170-197 | Whichever bytes the record allows a whole read to deliver, from a file that does not change they are its content, however the reads are cut. |
| `BlobOutcomes.DigestsAreSpelled` | crates/hypercolor-types/src/portable_setup/validation.rs:79-89 | The accepted digests are exactly the lower-case hexadecimal spellings of 32 bytes. |
| `BlobStore.Store.FoundOutcome` | crates/hypercolor-core/src/portable_setup.rs:122-162 | What checking the opened file says is what reading the blob says, refusals included. |
| `BlobOutcomes.CachedCapture` | crates/hypercolor-core/src/portable_setup.rs:88-99 | The cached branch of capture gives the answer that full hashing of the opened file gives. |
| `BlobOutcomes.AnewCapture` | crates/hypercolor-core/src/portable_setup.rs:100-118 | The uncached branch of capture gives the answer that full hashing of the opened file gives, refusals included. |
| `BlobWorld.UnchangedBetween` | crates/hypercolor-platform-fs/src/lib.rs:198-202 | Equal stamps at two moments mean the file's content did not change at any moment in between. |
| `Transfer.ByteInverse` | crates/hypercolor-color/src/transfer.rs:11-30 | Encoding a decoded byte gives that byte's exact unit value, on both branches of the curve. |
| `Transfer.PowerSlope` | crates/hypercolor-color/src/transfer.rs:24-30 | The power branch of the encoding rises, and no faster than 12.92. |
| `Transfer.Gentle` | crates/hypercolor-color/src/transfer.rs:24-30 | Over both branches encoding stretches distances by at most 12.92, up to the small step at the branch seam. |
| `Transfer.EncodeMonotone` | crates/hypercolor-color/src/transfer.rs:24-30 | Encoding keeps the order of two values if and only if both lie on one branch, the lower is far below the curve, or the upper is past the point where the power branch catches up. |
| `Transfer.EncodeIsNotMonotone` | crates/hypercolor-color/src/transfer.rs:24-30 | A concrete pair across the seam whose order is lost. |
| `Transfer.QuantizersRecover` | crates/hypercolor-color/src/transfer.rs:66-83 | For any encoding that gentle, snapping to the 65535 grid and then the 4095 grid, or the latter alone, still rounds to the original byte. |
| `Transfer.ByteRoundTrip` | crates/hypercolor-core/src/blend_math.rs:435-438 | Decoding a byte and encoding it through both tables returns the byte, which is what the opaque copy path relies on. |
| `Transfer.DecodeTable` | crates/hypercolor-color/src/transfer.rs:43-49 | The filled 256-entry table holds every byte's linear value. |
| `Transfer.EncodeTable` | crates/hypercolor-color/src/transfer.rs:51-60 | The filled 4096-entry table holds the encoded byte of every grid point. |
| `BlendKernel.BlendedInUnit` | crates/hypercolor-color/src/blend.rs:55-75 | For unit inputs every blend mode, SoftLight's square root and ColorDodge's quotient included, stays in the unit interval. |
| `BlendKernel.UnionCovers` | crates/hypercolor-color/src/blend.rs:76-85 | The output alpha is the union of both alphas, at least each of them, and its clamp never decides it. |
| `BlendKernel.BlendOverInUnit` | crates/hypercolor-color/src/blend.rs:45-85 | Unit pixels blend to a unit pixel whose alpha is at least the target's and at least the source's after opacity. |
| `BlendLaws.MultiplyLaws` | crates/hypercolor-color/src/blend.rs:52 | Multiply is what its laws leave open: mixing-compatible in each channel, symmetric, neutral against white, black against black, never brighter than either. |
| `BlendLaws.ScreenLaws` | crates/hypercolor-color/src/blend.rs:51 | Screen is Multiply of the complements, never darker than either channel; black leaves the other channel and white wins. |
| `BlendLaws.OverlayLaws` | crates/hypercolor-color/src/blend.rs:53-59 | Overlay is Multiply by the doubled channel in the lower half and Screen by it in the upper half. |
| `BlendLaws.SoftLightLaws` | crates/hypercolor-color/src/blend.rs:60-66 | SoftLight runs evenly from the channel's square over the channel itself at mid-grey to the root whose square it is. |
| `BlendLaws.ColorDodgeLaws` | crates/hypercolor-color/src/blend.rs:67-73 | ColorDodge times the source's complement gives the channel back until it saturates, and then it is white. |
| `BlendLaws.DifferenceLaws` | crates/hypercolor-color/src/blend.rs:74 | Difference is the distance between the larger and the smaller channel, zero exactly on equal ones. |
| `BlendLaws.TwiceIsUnion` | crates/hypercolor-color/src/blend.rs:76-85 | Painting a channel twice is painting it once with the union of the two coverages, which is the alpha the kernel reports. |
| `Compositor.SrgbIsFaithful` | crates/hypercolor-core/src/blend_math.rs:435-438 | The sRGB codec returns every byte and keeps decoded values in the unit interval. |
| `Compositor.PixelIsKernel` | crates/hypercolor-core/src/blend_math.rs:360-421 | For every mode, pixel pair and opacity in (0,1] the byte compositor is decode, float kernel, encode, transparent source pixels included. |
| `BlendLaws.BlackAndWhite` | crates/hypercolor-core/src/blend_math.rs:360-421 | Over every opaque pixel, through both encoding tables: opaque black leaves it under Add, Screen, ColorDodge and Difference and wins under Multiply; opaque white wins under Normal, Add, Screen and ColorDodge and leaves it under Multiply; a pixel's difference from itself is black; Overlay and SoftLight keep black and white. |
| `CompositorBuffers.OpaquePixel` | crates/hypercolor-core/src/blend_math.rs:360-421 | Over an opaque target the reference writes alpha 255 and each channel is the mode's weighted channel alone. |
| `CompositorBuffers.OpaqueCopy` | crates/hypercolor-core/src/blend_math.rs:65-70 | A fully opaque Normal source pixel is copied unchanged by the reference, so the copy path is exact. |
| `CompositorBuffers.FullMode` | crates/hypercolor-core/src/blend_math.rs:169-237 | At full weight a channel depends on the two bytes alone, which is what lets a table hold it. |
| `CompositorBuffers.BlendedIsUnique` | crates/hypercolor-core/src/blend_math.rs:42-167 | The buffer specification has at most one solution: pixels mapped by the reference, all trailing bytes unchanged. |
| `CompositorBuffers.FineTable` | crates/hypercolor-core/src/blend_math.rs:15-19 | The filled 65536-entry table holds the coarse table's byte for every fine grid point. |
| `CompositorBuffers.PairTable` | crates/hypercolor-core/src/blend_math.rs:20-40 | The filled 65536-entry pair table holds the reference's byte for every pair of bytes. |
| `CompositorBuffers.Tables.PairChannel` | crates/hypercolor-core/src/blend_math.rs:256-262 | A table lookup gives the reference's channel. |
| `CompositorBuffers.Tables.Reference` | crates/hypercolor-core/src/blend_math.rs:360-421 | The reference pixel computed through the tables is the specified one. |
| `InPlaceBlend.NormalFullPixel` | crates/hypercolor-core/src/blend_math.rs:59-88 | Skip, copy or fall back: the full-opacity Normal pixel equals the reference. |
| `InPlaceBlend.NormalFadedPixel` | crates/hypercolor-core/src/blend_math.rs:92-141 | Skip, lerp or fall back: the faded Normal pixel equals the reference. |
| `InPlaceBlend.PairPixel` | crates/hypercolor-core/src/blend_math.rs:169-237 | Skip, look up or fall back: the Screen and Difference pixel equals the reference. |
| `InPlaceBlend.BlendNormalFull` | crates/hypercolor-core/src/blend_math.rs:55-90 | The loop leaves exactly the reference's buffer, for buffers of any lengths. |
| `InPlaceBlend.BlendNormalFaded` | crates/hypercolor-core/src/blend_math.rs:91-142 | The loop leaves exactly the reference's buffer, for buffers of any lengths. |
| `InPlaceBlend.BlendByPairTable` | crates/hypercolor-core/src/blend_math.rs:169-237 | The two table loops leave exactly the reference's buffer, for buffers of any lengths. |
| `InPlaceBlend.BlendWithReference` | crates/hypercolor-core/src/blend_math.rs:239-254 | The plain loop leaves exactly the reference's buffer, for buffers of any lengths. |
| `InPlaceBlend.BlendInPlace` | crates/hypercolor-core/src/blend_math.rs:42-167 | For buffers of any lengths, any mode and any opacity, the target is the reference mapped over the complete common pixels, with every trailing byte unchanged. |
| `OpaqueBlend.OpaqueIsBlended` | crates/hypercolor-core/src/blend_math.rs:264-299 | On opaque buffers the loop for opaque layers is the compositor's Normal mode. |
| `OpaqueBlend.FadeAgrees` | crates/hypercolor-core/src/blend_math.rs:281-298 | For an opaque source pixel the loop for opaque layers agrees with the compositor, whatever the target's alpha, if and only if (255 - target alpha) * opacity is below one half. |
| `OpaqueBlend.BlendOpaqueNormal` | crates/hypercolor-core/src/blend_math.rs:264-299 | For opaque buffers, and at opacity 0 or 1 for all, exactly what the compositor's Normal mode leaves; at a partial opacity the colours of two opaque pixels under the target's own alpha. |
| `OpaqueBlend.TransparentIsPainted` | crates/hypercolor-core/src/blend_math.rs:264-299 | A concrete transparent pixel that the loop paints and the compositor leaves out. |
| `LayerHsl.ChromaticBounds` | crates/hypercolor-core/src/blend_math.rs:480-521 | Once the spread exceeds epsilon the saturation does too, and the two mixing bounds come back exactly. |
| `LayerHsl.RoundTripMovesOneChannel` | crates/hypercolor-core/src/blend_math.rs:480-534 | Only the channel that the epsilon tests take for the maximum can move, and it becomes the maximum. |
| `LayerHsl.RoundTrip` | crates/hypercolor-core/src/blend_math.rs:480-534 | HSL and back moves no channel by more than one epsilon, near ties included, and never takes the grey exit above epsilon. |
| `LayerHsl.PrimaryHues` | crates/hypercolor-core/src/blend_math.rs:494-500 | The six pure colours stand a sixth of a turn apart in their usual order. |
| `LayerHsl.ToneIs` | crates/hypercolor-core/src/blend_math.rs:480-493 | Lightness is halfway between the channel bounds, and saturation is the spread's share of the most it could be. |
| `ColorConvert.SectorIsWave` | crates/hypercolor-color/src/convert.rs:36-54 | The sector formula equals the hue wave at every hue, boundaries included. |
| `ColorConvert.HsvRoundTrip` | crates/hypercolor-color/src/convert.rs:56-84 | HSV from and to RGB rebuilds every triple of the unit cube. |
| `ColorConvert.HslRoundTrip` | crates/hypercolor-color/src/convert.rs:87-119 | HSL from and to RGB rebuilds every triple of the unit cube. |
| `ColorConvert.ByteColoursRoundTrip` | crates/hypercolor-color/src/convert.rs:12-133 | Every byte colour survives both conversions unchanged. |
| `ColorConvert.WrapIsPeriodic` | crates/hypercolor-color/src/lib.rs:46-49 | Whole turns of the hue make no difference, and what is left differs by whole turns only. |
| `ColorConvert.PrimaryHues` | crates/hypercolor-color/src/convert.rs:121-133 | The six pure colours have the hues 0 to 300 in steps of 60, in HSV and HSL. |
| `ColorConvert.HsvToneIs` | crates/hypercolor-color/src/convert.rs:70-84 | Value is the brightest channel, and saturation the spread's share of it. |
| `ColorConvert.HslToneIs` | crates/hypercolor-color/src/convert.rs:101-119 | Lightness is halfway between the channel bounds, and saturation the spread's share of the most it could be. |
| `TrayState.AppState.ApplyMessage` | crates/hypercolor-app/src/state.rs:64-83 | Every message changes the tray's fields to what the message says and leaves the others. |
| `TrayState.AppState.ApplyUpdate` | crates/hypercolor-app/src/state.rs:85-132 | Every state update changes exactly the fields it names. |
| `TrayState.UpdatedFields` | crates/hypercolor-app/src/state.rs:85-132 | Field by field: which updates move it and to what, the fields that no update moves included. |
| `TrayState.AppliedFields` | crates/hypercolor-app/src/state.rs:64-83 | Field by field: a connection's state replaces everything, a disconnection forgets everything live, and any other message moves its own part only. |
| `TrayTheorems.StepAgrees` | crates/hypercolor-app/src/daemon_client.rs:139-227 | Each step of daemon, wire, client and tray keeps: the last brightness on its way, or else the one shown, is the daemon's. |
| `TrayTheorems.Convergence` | crates/hypercolor-app/src/daemon_client.rs:139-227 | In every state of every run, while connected and with the daemon's last change published, the last pending brightness or else the shown one is the daemon's. |
| `TrayTheorems.DrainedAgreement` | crates/hypercolor-app/src/daemon_client.rs:374-468 | With nothing left on its way, the tray shows the daemon's brightness. |
| `TrayTheorems.DisconnectedShowsNothing` | crates/hypercolor-app/src/state.rs:64-83 | In every run a disconnected tray never shows running, paused, an effect or a scene. |
| `CanvasCapture.BurstExtends` | crates/hypercolor-daemon/src/canvas_capture.rs:170-195 | One more explained capture keeps the burst good. |
| `CanvasCapture.BurstIncreases` | crates/hypercolor-daemon/src/canvas_capture.rs:165-195 | In a good burst no capture comes from before the mark, and every fresh one comes from a publication after the mark and after all earlier captures. |
| `CanvasCapture.Capture.NextFrame` | crates/hypercolor-daemon/src/canvas_capture.rs:198-215 | The frame was the latest when borrowed. If the wait ended with a change, it was not the resume frame when that was asked behind the borrow; otherwise the timeout had passed or the channel was closed, a stale frame means that nothing new had been published, and a fresh one that a newer frame was passed over as the resume frame. |
| `CanvasCapture.Capture.CaptureCanvas` | crates/hypercolor-daemon/src/canvas_capture.rs:154-195 | A successful capture has between one and the requested number of frames, all but possibly the last fresh, each explained as above and an interval after the one before; fewer frames than asked for means the last is stale. Any error but a refused request comes after a shorter good burst and is the fault of the frame taken last: empty, or impossible to encode. |
| `Multipart.BoundariesDiffer` | crates/hypercolor-cli/src/client.rs:369-374 | Different attempts below 2^32 give different boundaries. |
| `Multipart.TakenAreFew` | crates/hypercolor-cli/src/client.rs:369-381 | Attempts that all occur in the contents are no more than the contents have windows of a boundary's length. |
| `Multipart.SomeAttemptIsFree` | crates/hypercolor-cli/src/client.rs:369-381 | With fewer than 2^32 windows some attempt no later than their number is free, so the counter cannot run out. |
| `Multipart.MultipartBoundary` | crates/hypercolor-cli/src/client.rs:369-381 | Returns the first boundary that does not occur in the contents, after at most one more attempt than there are windows. |
| `Multipart.PostFileBody` | crates/hypercolor-cli/src/client.rs:149-158 | The body is the header block, the contents and the closing delimiter, with a boundary absent from the contents. |
| `Multipart.HeadLines` | crates/hypercolor-cli/src/client.rs:152-156 | A reader finds the opening delimiter, the file's disposition and the content type as the body's first three lines, for every content type on one line. |
| `Multipart.FileNameReadsBack` | crates/hypercolor-cli/src/client.rs:153-154 | The file name reads back up to the next quote as itself if and only if it holds no quote and no line break; every other character of it always does. |
| `Multipart.HeadersEndWhereWritten` | crates/hypercolor-cli/src/client.rs:152-156 | A reader finds the end of the headers where the writer put it if and only if the content type holds no blank line and does not end in a line break; the file name can never break it. |
| `Multipart.DelimiterIsOurs` | crates/hypercolor-cli/src/client.rs:157-158 | The first delimiter after the headers is the writer's own, also where contents and delimiter could overlap. |
| `Multipart.ContentsComeBack` | crates/hypercolor-cli/src/client.rs:149-158 | For every content type that does not name the boundary, reading the body gives back exactly the contents if and only if the content type is clean. |
| `Multipart.SmuggledReadsBack` | crates/hypercolor-cli/src/client.rs:149-158 | Why that condition: a content type that names the boundary can be unclean and read back all the same, out of itself. |
| `Multipart.CleanRead` | crates/hypercolor-cli/src/client.rs:149-158 | With a clean content type of any kind, reading the body gives back exactly the contents. |
| `Multipart.BlankLineBreaksUpload` | crates/hypercolor-cli/src/client.rs:152-156 | A concrete content type with which no upload is read back. |
| `TomlScan.StripTrailingComment` | scripts/gen-compat.ts:237-253 | The loop with its backslash-counting inner loop cuts at the first `#` outside a string. |
| `TomlScan.StrippedIsPrefix` | scripts/gen-compat.ts:237-253 | What is kept is the text before the first unquoted `#`, or all of it. |
| `TomlScan.ScansAgree` | scripts/gen-compat.ts:237-253 | The backslash-counting scan and the left-to-right escape scanner agree on every position if and only if no opening quote stands behind an odd run of backslashes. |
| `TomlScan.ScansCanDisagree` | scripts/gen-compat.ts:237-253 | A concrete text on which the two scanners differ. |
| `TomlScan.SplitTopLevel` | scripts/gen-compat.ts:345-370 | The loop returns the non-blank pieces between the commas that lie outside strings and brackets. |
| `TomlScan.CellsAreTrimmed` | scripts/gen-compat.ts:274-276 | The cells the array reader parses are the kept pieces, each trimmed. |
| `TomlScan.CountBackslashes` | scripts/gen-compat.ts:245-246 | The inner loop counts the run of backslashes before an index. |
| `TomlValue.ParseString` | scripts/gen-compat.ts:289-343 | The index loop returns the unescaped value and the closing quote's index, or the first escape or end error. |
| `TomlRoundTrip.ParseRender` | scripts/gen-compat.ts:255-284 | Parsing any written value (every escape, decimal, hexadecimal and fractional numbers, booleans, nested arrays with padding, gaps and trailing commas) gives the value it stands for. |
| `TomlRoundTrip.LineRoundTrip` | scripts/gen-compat.ts:237-284 | Padding, any trailing comment, stripping, trimming and parsing give the value back. |
| `TomlDocument.EscapesAre` | scripts/gen-compat.ts:295-331 | The eight escape letters stand for their characters, place by place in two tables, and no other letter is accepted. |
| `TomlNumbers.HexRoundTrip` | scripts/gen-compat.ts:280 | Every number printed in hexadecimal, each digit in either case, with leading zeros and either sign, is read as itself on any padded and commented line. |
| `TomlNumbers.FractionRoundTrip` | scripts/gen-compat.ts:282 | Every number whose decimal expansion ends within its printed digits is read as itself. |
| `TomlAcceptance.OnlyGrammarParses` | scripts/gen-compat.ts:255-284 | A trimmed text parses if and only if the grammar writes it: nothing else is accepted, however nested. |
| `TomlDocument.PrintDenotes` | scripts/gen-compat.ts:255-343 | Every value of strings, integers, booleans and nested arrays has a written form that stands for it. |
| `TomlDocument.ValueRoundTrip` | scripts/gen-compat.ts:237-343 | Print, pad, comment, strip, trim and parse: the same value. |
| `TomlDocument.ParseToml` | scripts/gen-compat.ts:183-235 | The line loop computes the line-by-line reading, with the index of the first line that fails. |
| `TomlDocument.LinesKeep` | scripts/gen-compat.ts:189-232 | For every text, reading on never changes or drops a value already read: a repeated key is an error, and a new table never touches an old one. |
| `TomlDocument.OnlyKnownKeys` | scripts/gen-compat.ts:169-181 | For every text, a document that is read holds only the documented vendor and device keys. |
| `TomlAcceptance.PerformedExactly` | scripts/gen-compat.ts:200-232 | A list of headers and assignments goes through if and only if every assignment stands in a section that knows its key and has not assigned it. |
| `TomlAcceptance.AcceptedExactly` | scripts/gen-compat.ts:183-235 | A text is read if and only if all its lines are written in the grammar and their acts go through: nothing is skipped. |
| `TomlDocument.LineRead` | scripts/gen-compat.ts:189-232 | In every reader state a written line does what it means, or fails with the same error. |
| `TomlDocument.FileRead` | scripts/gen-compat.ts:183-235 | Reading a written file with either line end does what its lines mean, error and line index included. |
| `TomlFile.DocumentRoundTrip` | scripts/gen-compat.ts:183-235 | Any document over the known keys, in any spelling, with comments and blank lines anywhere, is read back as itself. |
| `CodeSpans.EscapedAt` | scripts/gen-rest-reference.ts:353-357 | True exactly when an odd number of backslashes precedes the index. |
| `CodeSpans.BacktickRunEnd` | scripts/gen-rest-reference.ts:359-363 | The end of the backticks that start at the index. |
| `CodeSpans.ClosingRun` | scripts/gen-rest-reference.ts:366-376 | The end of the first backtick string of exactly the given length, or -1 when there is none. |
| `CodeSpans.FoundAreSpans` | scripts/gen-rest-reference.ts:330-351 | Moving one character at a time and looking back for backslashes finds the spans that reading tokens forward does; which ones those are, by section 6.1 of CommonMark 0.31, is `SpanTheorems.OnlyReading`. |
| `CodeSpans.SpansPartition` | scripts/gen-rest-reference.ts:330-351 | The spans come in order without overlap; each opens with a run, closes with the first backtick string of its length, and holds no earlier one. |
| `CodeSpans.OutsideCode` | scripts/gen-rest-reference.ts:330-351 | Exactly the text outside the code spans goes through the transform; the spans, which `SpanTheorems.OnlyReading` determines, are kept as they are. |
| `SpanTheorems.OnlyReading` | scripts/gen-rest-reference.ts:330-351 | The spans are the only list in which nothing overlaps, every span starts at unescaped backticks and ends with their first partner, and all such backticks outside the spans that have a partner start one. |
| `SpanTheorems.EveryPartnerIsFound` | scripts/gen-rest-reference.ts:330-376 | Unescaped backticks outside all spans open one if and only if a backtick string of their length follows. |
| `SpanTheorems.BehindTheLast` | scripts/gen-rest-reference.ts:346-350 | The output ends with the transformed text behind the last span, and is all of it when there is no span. |
| `SpanTheorems.EscapedMeans` | scripts/gen-rest-reference.ts:353-357 | A place is escaped if and only if the backslashes that end before it are odd in number. |
| `SpanTheorems.LongestIsThere` | scripts/gen-rest-reference.ts:316 | The longest run of backticks is one that the text has. |
| `CodeSpans.IdentityIsIdentity` | scripts/gen-rest-reference.ts:330-351 | With an identity transform the text comes back. |
| `CodeSpans.CodeIsOneSpan` | scripts/gen-rest-reference.ts:315-320 | A written span is read as exactly one span if and only if its text is not empty. |
| `CodeSpans.CodeReadsBack` | scripts/gen-rest-reference.ts:315-320 | The text that CommonMark reads out of a written span is the text itself if and only if it has no line end and does not begin and end with a space around something else. |
| `CodeSpans.SpacesCanBeLost` | scripts/gen-rest-reference.ts:315-320 | A concrete text that loses its outer spaces. |
| `CodeSpans.EmptyCodeIsText` | scripts/gen-rest-reference.ts:315-320 | The empty text is the failing case: its two fences run together and form no span. |
| `RustMask.SkipComment` | scripts/lib/rust_source.py:41-53 | The depth loop ends where the nested comment does. |
| `RustMask.CommentIsWhole` | scripts/lib/rust_source.py:41-53 | A block comment ends where the grammar of nested comments says, whatever follows it. |
| `RustMask.SkipString` | scripts/lib/rust_source.py:68-71 | The loop ends at the string's closing quote or behind the source. |
| `RustMask.StringEndsAtQuote` | scripts/lib/rust_source.py:68-71 | A string ends at its first quote that no odd run of backslashes escapes. |
| `RustMask.Mask` | scripts/lib/rust_source.py:29-90 | The loop computes the masked text, token by token. |
| `RustMask.LengthKept` | scripts/lib/rust_source.py:29-90 | The length is kept if and only if every string literal is closed; otherwise there is exactly one extra character. |
| `RustMask.EveryOffset` | scripts/lib/rust_source.py:25-90 | At every offset code and delimiters are unchanged, comments and literal contents are blank, and no newline is added. |
| `RustMask.NewlinesKept` | scripts/lib/rust_source.py:25-90 | Every newline keeps its offset if and only if no plain char literal holds one. |
| `RustMask.MaskingCanFail` | scripts/lib/rust_source.py:66-87 | Concrete sources for both failing cases. |
| `MaskForms.EverySourceReads` | scripts/lib/rust_source.py:29-90 | Every source is spelled by comments, literals and other characters of Rust's grammar, given without the scan; forms left open run to its end. |
| `MaskForms.EscapedQuoteMeans` | scripts/lib/rust_source.py:70-71 | A quote is escaped if and only if the backslashes before it within its string are odd in number. |
| `MaskForms.FormsDecide` | scripts/lib/rust_source.py:29-90 | However a source is spelled by them, the masked text shows delimiters and code where they are, and blanks for comments and contents, only line breaks kept. |
| `MaskForms.FormsEnd` | scripts/lib/rust_source.py:29-90 | Nothing is added but the quote that closes a string left open. |
| `MaskTheorems.NoCommentLeft` | scripts/lib/rust_source.py:35-53 | For every source, no comment opens at any offset of the masked text. |
| `MaskTwice.MaskingTwice` | scripts/lib/rust_source.py:29-90 | Masking a masked text changes nothing if and only if no escaped char literal is followed by what makes its closing quote look like an opening one: a backslash with a quote to come, or a character other than a space before a quote. |
| `MaskTwice.NoEscapesSettle` | scripts/lib/rust_source.py:75-83 | A source without escaped char literals meets that condition. |
| `MaskTwice.SecondPassDiffers` | scripts/lib/rust_source.py:75-87 | A concrete source that a second masking changes. |
| `SchemaGraph.DirectRefsAreMentions` | scripts/gen-rest-reference.ts:549-567 | Direct references are exactly the supported mentions in the node other than the response metadata; an unsupported one is an error. |
| `SchemaGraph.MentionsAreLedTo` | scripts/gen-rest-reference.ts:553-566 | A node mentions exactly the references that some path of items and field values leads to without passing through another reference. |
| `SchemaGraph.LookupIsFirst` | scripts/gen-rest-reference.ts:557-559 | A field is found under its name exactly when the object has it. |
| `SchemaGraph.Reachable` | scripts/gen-rest-reference.ts:569-579 | Stops on every graph, cycles included; the result is exactly the names chains of references end in, and it fails if and only if one of them cannot be read. |
| `SchemaGraph.LeastClosed` | scripts/gen-rest-reference.ts:569-579 | That set is the least one that holds the roots and is closed under direct references. |
| `SchemaGroups.AddOperation` | scripts/gen-rest-reference.ts:526-539 | One operation adds its tag to exactly the names it reaches. |
| `SchemaGroups.Reference.AssignSchemaGroups` | scripts/gen-rest-reference.ts:524-546 | Fails if and only if some reference cannot be followed; otherwise every schema gets the group its reaching tags decide. |
| `SchemaGroups.GroupMeans` | scripts/gen-rest-reference.ts:541-545 | After grouping, a schema's group is a given name if and only if that is the only tag that reaches it, or the name is the generator's own for schemas of its kind: reached by two tags, or by none and part of the envelope or not. |
| `SchemaGroups.OwnGroup` | scripts/gen-rest-reference.ts:541-545 | After grouping, a schema is grouped under an ordinary tag if and only if that tag's operations, and no other's, reach it. |
| `SchemaGroups.SharedGroup` | scripts/gen-rest-reference.ts:541-545 | After grouping, a schema is shared if and only if two different tags reach it or the only one that does is itself called `shared`. |
| `SchemaGroups.SectionTagIsAmbiguous` | scripts/gen-rest-reference.ts:541-545 | The odd cases: after grouping, a schema that only a tag called `shared`, `envelope` or `unreferenced` reaches is in that section although it is neither shared nor unreferenced. |
| `Histogram.ReadBuckets` | scripts/graphics-pipeline-soak.ts:980-992 | Succeeds exactly on buckets with valid, distinct indexes up to the overflow bucket, with the map they spell and its total. |
| `Histogram.CumulativeInputHistogram` | scripts/graphics-pipeline-soak.ts:966-1002 | Succeeds on exactly the well-formed reports whose bucket total is the reported sample count, with what they say. |
| `Histogram.BucketGrowth` | scripts/graphics-pipeline-soak.ts:933-946 | The differences in bucket order, or the lowest bucket that shrank. |
| `Histogram.FindRank` | scripts/graphics-pipeline-soak.ts:948-964 | The rank loop returns the nearest-rank p95 of the expanded samples; the error behind the loop is unreachable. |
| `Histogram.DeltaP95` | scripts/graphics-pipeline-soak.ts:926-964 | For every list of the samples added between two reports, the result is its nearest-rank p95, infinite exactly in the overflow bucket and 0 without samples; changed geometry and shrinking buckets are refused. |
| `Histogram.RequiredHistogramDeltaP95Ms` | scripts/graphics-pipeline-soak.ts:923-964 | The same for the two raw reports, malformed ones refused. |
| `Histogram.SamplesAreTheReportedGrowth` | scripts/graphics-pipeline-soak.ts:994-1000 | The samples are exactly as many as the reported sample count grew by. |
| `Histogram.NaturalIs` | scripts/graphics-pipeline-soak.ts:1171-1185 | The accepted metrics are exactly the whole numbers from 0, or from 1, up to the largest safe integer. |
| `Histogram.LatencyOfSample` | crates/hypercolor-daemon/src/performance.rs:348-362 | What is reported for a recorded sample is at least its latency and less than one bucket above it, or infinite exactly when it fell into the open bucket. |
| `Histogram.P95OfRecorded` | scripts/graphics-pipeline-soak.ts:948-964 | The p95 of recorded samples is the 95th percentile of the samples themselves, rounded up by less than one bucket. |
| `Histogram.RequiredMetricSequenceDelta` | scripts/graphics-pipeline-soak.ts:886-906 | The growth since the baseline, exactly when all three values are numbers that never fall. |

## Left out

- f32 rounding, NaN and infinities: colours are exact reals, and `clamp`, `round` and `rem_euclid` are their real counterparts.
- Oklab and Oklch, `cbrt` and trigonometry: rounded constants have no exact inverse.
- SHA-256, TOML text and file stamps of the Rust stores: parameters with the assumptions above.
- BlobStore.Store.Read: without change stamps a file that changes while it is hashed can go unnoticed; what is stated of one that does is about the bytes it delivered, not about one version of it. How those bytes were cut into reads is not on record, so they are some bytes that the recorded versions can have delivered.
- BlobStore.Store.Capture: likewise without change stamps.
- Lock admission against shutdown in the preference store: the flag is only looked at before the lock or the write, so nothing sharp follows; both outcomes are steps of the system.
- The layer adjustment loop: it depends on normalisation defined elsewhere; its colour conversion is `LayerHsl`.
- InPlaceBlend.BlendByPairTable: one method stands for the Screen and the Difference loop, which differ only in their table.
- Tray effect, paused and server index against the daemon, and the credentials and discovery of servers: decided by lookups outside the event stream.
- TrayTheorems.Convergence: each connection has a fresh bus and wire; a daemon's messages from before a reconnect are not delivered after it.
- CanvasCapture.Capture.CaptureCanvas: pixels are not modelled, only which publication each frame is and whether it can be encoded; `remaining` bounds how often the render thread can still publish, because a wait that is interrupted for ever never ends.
- CanvasCapture.Capture.NextFrame: no upper bound on the wait, because a publication that arrives late still wins over the timeout.
- TomlRoundTrip.ParseRender: numbers are exact, so rounding of integers beyond 2^53 and of decimal fractions, and the sign of `-0`, are not modelled.
- TomlDocument.ParseToml: file names in error messages.
- CodeSpans.OutsideCode: the rest of CommonMark's inline precedence (HTML tags and autolinks), which the source does not look at either.
- RustMask.Mask: which characters count as alphanumeric is a parameter; bracket matching and test regions are separate helpers of the same file.
- SchemaGroups.Reference.AssignSchemaGroups: the `schemaUsers` lists filled beside the groups, and the choice of an operation's schemas from its request, responses and parameters.
- Histogram.CumulativeInputHistogram: which of several problems is named first, and rounding of sums beyond 2^53.
- Multipart.MultipartBoundary: behaviour when all 2^32 boundaries occur in the contents, which needs at least 2^32 windows.
- HTTP, WebSocket and process plumbing, windows and tray widgets, diagnostics export, page rendering, capture scripts: foreign calls and easy members.
