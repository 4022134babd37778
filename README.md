# tunes: playlist and source resolution, modelled in Dafny

`tunes` is a jQuery widget that turns a container holding an `<audio>` or
`<video>` element, plus a JSON playlist, into a playlist player. This project
models the widget's logic for choosing sources and moving through the
playlist:

- **Capability table** (`Capability`, capability.dfy). For each media
  category, the candidate formats are probed through the element's
  `canPlayType`, and the usable ones are ranked. A "maybe" answer is pushed to
  the back and any other usable answer is unshifted to the front.
- **Track normaliser** (`Tracks`, tracks.dfy). Each track of the playlist is
  rewritten in place, from last to first, in four steps:
  - it is given its `track-number`;
  - its `src` URIs are compacted (`compact`);
  - each URI is recorded under its extension, first seen wins
    (`setExtensionProps`);
  - its `src` is replaced by the best-ranked URI (`getBestType`).
- **Playlist cursor** (`Cursor`, cursor.dfy). `changeTrack` finds the current
  track, steps by `amount` and snaps to a boundary when it falls off. It
  computes the URI written to the media element and the video's `poster`
  attribute, then binds the new track's fields into the container's elements
  through `data-tunes-insert` and `data-tunes-attr` (using `updateAttr`).
- **The older cursor of cue.js** (`Cue`, cue.dfy). It has its own matching,
  stepping and fallback rule.
- **JavaScript value semantics** (`Js`, js.dfy). This module holds the
  semantics the rest relies on:
  - JSON values other than objects (null, booleans, integers, strings and
    arrays) and their truthiness;
  - property lookup on a track's own properties, where a key the track does
    not have reads as undefined (inherited `Object.prototype` properties are
    not modelled);
  - `split` and `join`, and the `split('.').pop()` extension idiom;
  - the first-truthy iterator `deduce`.

The browser's `canPlayType` is a parameter: a function from MIME strings to
the browser's answer. It is `None` when the element has no such method.

Three behaviours of the code worth noting:

- the video candidates are probed in the order ogg, webm, mp4;
- confidently playable formats end up in REVERSE probe order, because each
  one is unshifted to the front;
- the URI written to the media element on a track change is `next[ext] || ''`,
  where `ext` is the extension of the CURRENT URI. It is not the new track's
  resolved `src`.

## Model

| member | source | states |
|---|---|---|
| Js.Deduce | src/index.js:84-88 | the result is undefined exactly when every callback result is falsy; otherwise it is the callback result at the first index whose result is truthy |
| Js.DeduceFirst | src/index.js:84-88 | the iteration stops at the first truthy callback result, which is what `deduce` returns |
| Js.JoinSplit | src/index.js:209 | joining the pieces of `split` with the separator gives back the string |
| Js.SplitJoin | src/index.js:209 | splitting a join of separator-free pieces gives back the pieces |
| Js.ExtensionIsLastSegment | src/index.js:271 | `split('.').pop()` is a dot-free suffix of the URI, starting right after a dot or at the start; it is the whole URI when there is no dot |
| Js.ExtensionEmpty | src/index.js:209 | the extension is empty exactly when the URI is empty or ends in a dot |
| Capability.BuildCapability | src/index.js:51-75 | the ranking and the `arr[ext]` answers are the fold of push/unshift over the candidates in order; the codec strings are tried in order up to the first usable answer; without `canPlayType` both are empty |
| Capability.ProbeCandidate | src/index.js:67-72 | one round of the `for...in` loop records the usable answer, or `false` once a codec string was tried without one, and pushes a "maybe" format or unshifts any other usable one; the codec strings are tried in order and the round stops at the first usable answer |
| Capability.FirstUsableIsDeduce | src/index.js:68-72 | the answer kept for a format is what the inner `deduce` over its codec strings returns |
| Capability.FirstUsableStep | src/index.js:68-71 | from codec string `j` on, the answer is that string's answer when usable, and otherwise the answer from the next string on |
| Capability.BuildSupport | src/index.js:46-76 | `support.audio` and `support.video` are the rankings built by probing with `audio/` and `video/` respectively; each is empty without `canPlayType` |
| Capability.RankingOrder | src/index.js:65-73 | the ranking is the confident formats in reverse probe order, followed by the "maybe" formats in probe order; formats answered "" or "no" are absent |
| Capability.PlaceSplit | src/index.js:71 | placing one more format keeps the ranking in the form "confident formats reversed, then maybe formats" |
| Capability.RankingMembers | src/index.js:52-72 | a format is ranked if and only if one of the candidates with that extension got a usable answer, so the ranking is a subset of the candidate list |
| Capability.RankingNoDuplicates | src/index.js:52-72 | with distinct candidate extensions, no format appears twice in the ranking |
| Capability.CandidatesDistinct | src/index.js:54-64 | the fixed audio and video candidate lists have distinct extensions |
| Capability.WavRankedWithMp3 | src/index.js:59-63 | wav and mp3 are probed with the same MIME type, so the audio ranking holds both or neither |
| Tracks.TruthyItems | src/index.js:150-151 | the kept entries are truthy entries of the input, and there are no more of them than input entries |
| Tracks.TruthyItemsAppend | src/index.js:150-151 | filtering distributes over concatenation, so the kept entries stay in their original order |
| Tracks.TruthyItemsComplete | src/index.js:150-151 | every truthy entry of the input is kept |
| Tracks.Compact | src/index.js:146-153 | the loop builds exactly the truthy entries, in order: of the space-split pieces for a string, of the entries for an array, and none for a falsy input |
| Tracks.CompactWords | src/index.js:149-151 | a compacted string gives non-empty words with no space in them |
| Tracks.ExtensionPropsKeys | src/index.js:269-272 | afterwards the track has its own properties plus one property per URI extension |
| Tracks.ExtensionPropsKeepTruthy | src/index.js:271 | a property that is already truthy is never overwritten |
| Tracks.ExtensionPropsUntouched | src/index.js:269-272 | a property that no URI's extension names keeps its value and its presence |
| Tracks.ExtensionPropsFirstSeen | src/index.js:269-272 | when the property is not already truthy, it ends up holding the first URI with that extension |
| Tracks.BestType | src/index.js:136-140 | the best type is a truthy value or "" |
| Tracks.FirstPresentIsDeduce | src/index.js:137-139 | the first present format along the ranking is what `deduce` over `support[name]` with the lookup callback returns |
| Tracks.BestTypeFirst | src/index.js:136-140 | the best type is the track's value for the highest-ranked format for which it has a truthy value |
| Tracks.BestTypeNone | src/index.js:136-140 | with no ranked format present on the track, the best type is "" |
| Tracks.NormalisedFields | src/index.js:314-324 | normalisation adds `track-number`, `src` and the extension properties, and no other property. `track-number` is the original position (except in the position-0 quirk below). A truthy property other than `src` and `track-number` keeps its value. A property other than those two that no extension names is unchanged |
| Tracks.NormalisedSource | src/index.js:320-323 | the new `src` is the best type of the track once its URIs are recorded by extension, so an explicit format property wins over a URI in `src` |
| Tracks.RecordExtensions | src/index.js:269-272 | `deduce(items, setExtensionProps, t)` succeeds exactly when every entry is a string, and then records each URI under its extension in order |
| Tracks.NormaliseAt | src/index.js:316-323 | one loop iteration rewrites `tunes[i]` to its normalised form, or reports the `TypeError` raised by a non-string URI; the other tracks are unchanged |
| Tracks.Normalise | src/index.js:314-324 | the backwards loop succeeds if and only if every track can be normalised; on success each track equals its normalised form at its original position; on failure there is a track that cannot be normalised, every track after it is already normalised and every track before it is untouched |
| Cursor.MatchIndex | src/index.js:209-213 | the result is the first track whose `[ext]` is the current URI, or none when no track has it |
| Cursor.Target | src/index.js:206-220 | the selected index is always inside the playlist |
| Cursor.TargetAfterMatch | src/index.js:209-220 | from the first matching track at `i`, the result is `i + amount` when that is inside the playlist; otherwise `l - 1` when stepping back and `0` otherwise, with no wrap |
| Cursor.TargetWithoutMatch | src/index.js:208-220 | with no current URI or no match, the result is `l - 1` when `amount < 0` and `0` otherwise |
| Cursor.CurrentKeyFallback | src/index.js:209 | the compared key is "src" for a URI ending in a dot, and the URI's non-empty extension otherwise |
| Cursor.SelectTrack | src/index.js:206-220 | the `for`/`break` scan yields the index of `Target`, the track there, and `ext`, which is undefined without a current URI |
| Cursor.MediaSource | src/index.js:221 | the written URI is `next[ext]` when that is truthy, and "" otherwise; without a current URI `ext` is undefined and the key read is "undefined" |
| Cursor.ColdStartWritesEmpty | src/index.js:207-221 | with no current URI the written URI is "", unless the track has a truthy property literally named "undefined" |
| Cursor.UpdateAttr | src/index.js:161-163 | the attribute is removed for a null or undefined value and set to the value otherwise; every other attribute is unchanged |
| Cursor.BoundAttrsUntouched | src/index.js:238-244 | an attribute named by no usable `data-tunes-attr` entry keeps its state |
| Cursor.BoundAttrsLastWins | src/index.js:238-244 | the last usable entry naming an attribute decides it: the attribute is set to the named field, or removed when that field is null |
| Cursor.BoundAttrsForget | src/index.js:238-244 | an attribute that some entry names ends in a state independent of its state before |
| Cursor.BindIdempotent | src/index.js:232-245 | binding the same track twice leaves the content and the attributes as binding it once does |
| Cursor.BoundNode.Bind | src/index.js:232-245 | the node's content follows the `data-tunes-insert` rule and its attributes follow the `data-tunes-attr` entries in order |
| Cursor.BindAll | src/index.js:232-245 | every node of the list is bound to the track, and the binding attributes of the nodes are unchanged |
| Cursor.ChangeTrack | src/index.js:205-247 | the returned index is `Target`; the media URI is `MediaSource` of the selected track; every node is bound to the track and its binding attributes are unchanged; the media element, itself one of the nodes, gets a video's `poster` update from the track before its own binding applies |
| Cue.Setup | cue.js:12-19 | the handlers are wired only for truthy data, a non-empty list and a present video; a single object is wrapped into a one-entry list |
| Cue.FirstSrcMatch | cue.js:27-33 | the result is the first non-null entry whose `src` is the current URI, or none when no entry has it |
| Cue.CueTarget | cue.js:23-36 | the chosen entry is always inside the list |
| Cue.NextCue | cue.js:23-37 | the `$.each` scan with early exit picks the `CueTarget` entry; the `src` is written only when the chosen entry has a truthy `src`, and a null entry throws |
| Cue.CueAfterMatch | cue.js:27-36 | from the first matching entry at `i`, the handler plays `i + 1` or `i - 1` when that entry exists, and falls back to the first entry (forward) or the last (backward) otherwise |
| Cue.CueWithoutMatch | cue.js:23-36 | with no current URI or no match, the handler plays entry 0 in either direction, unless entry 0 is null |
| Cue.ColdStartBackwardDiffers | cue.js:23-36 | from a cold start, stepping backward reaches the last track in `changeTrack` but the first entry in cue.js |

## Left out

- DOM and jQuery plumbing is not modelled: library detection, `insertControls`, `addMarkedEvent`, `activateTimeUpdate`, `playPause`, the `$.fn` registration and the event wiring of both files. These are presentation and event binding.
- `json()`, `parseJson` and `$.parseJSON` are not modelled; they are network fetches and library calls. Playlists, `data-cue` values and `data-tunes-attr` maps are taken already parsed.
- `formatTime` is not modelled; it is floating-point arithmetic followed by regular-expression padding.
- `canPlayType` appears only as an injected oracle, and `media.play()` is not modelled.
- `Cursor.ChangeTrack` returns the media `src` property and the `data-tunes-idx` index instead of writing them.
- `Cursor.ChangeTrack` does not model the `nodeType` filter on the node list. Every node it is given is an element. It also requires the nodes to be distinct objects, as a live node list is, and the media element to be one of them, as it is a descendant of the container.
- `Cursor.BoundNode.Bind` keeps the binding attributes (`data-tunes-insert` and the parsed `data-tunes-attr` entries) apart from the attributes it writes. A map entry that rewrites one of the binding attributes themselves is not modelled.
- `Cursor.BindAll` and `Cursor.ChangeTrack` bind a fixed list of nodes, each exactly once, and store a node's content as a value rather than parsed markup. The source walks the live `getElementsByTagName('*')` collection with a length read once: markup inserted by `.html()` adds elements to that collection during the loop, which can push the last nodes past the length read at the start and leave them unbound. That growth is not modelled.
- `Js.Lookup` reads only a track's own properties: inherited `Object.prototype` properties (`constructor`, `toString`, …) are not modelled, so a key absent from the track reads as undefined. In the source a URI such as `clip.constructor` finds the inherited, truthy `constructor` and records nothing, and a current URI such as `x.toString` makes `next[ext]` a function.
- Attribute values are stored as the values they are set from; `setAttribute` would turn them into strings.
- Object-valued properties are not modelled: a track field or `src` holding a JSON object (nested metadata, or an array-like object that `compact` would walk through its `length`) cannot be represented.
- `null` and `undefined` are one value. The code only tests them with `==` or by truthiness.
- Numbers are integers. A number used as a property name is turned into its decimal string.
- Tracks are values (maps) held in an array, so two playlist entries that are the same object are not modelled.
- Non-object playlist entries are not modelled. The `[].concat` wrapping of a single track object is not modelled either: the playlist is given as a sequence.
- Empty playlists reach neither the normaliser nor `changeTrack` in the source. `changeTrack` and the cue.js handler therefore require a non-empty list.
- `Tracks.Normalise` stops at the first track whose `src` holds a non-string URI, as the source's `TypeError` does. The partial rewrite of that failing track itself is not described.
- `Capability.BuildSupport` states only the two rankings. The per-extension answers are stated by `Capability.BuildCapability`.
- The `track-number` quirk of the source is kept. At position 0 the number is 0, which is falsy, so a URI whose extension is literally "track-number" overwrites it.
