# FreeShow: OpenSong import and media helpers, in Dafny

This project models two pieces of FreeShow's frontend. FreeShow is a
presentation program for live events such as worship services.

- **The OpenSong importer** (`src/frontend/converters/opensong.ts`). OpenSong
  is an XML format for song lyrics. Its `<lyrics>` text is split into blocks
  at blank lines (`"\n\n"`). Each block starts with a group header such as
  `[V1]`. After the header, chord lines and text lines take turns.
  `createSlides` turns each block into one slide, stored in a dictionary
  under a fresh id. It also builds a layout: the list of those ids in block
  order. The header, without brackets and digits, is looked up in the
  `OSgroups` table (`V` for verse, `C` for chorus, `B` for bridge, `T` for
  tag, `O` for outro). The slide is tagged with that global group when it is
  a known one. `convertOpenSong` fills in the new show's category, name,
  metadata, slides and single layout.
- **The media helpers** (`src/frontend/components/helpers/media.ts`). These
  take a path's extension, strip it, take the file name, split a path into
  parts, classify an extension as image, video or audio, and merge a media
  item's style over the default style.

Modules:

- `Wrappers` (`wrappers.dfy`): `Option`, for JavaScript's `null`/`undefined`.
- `Strings` (`strings.dfy`): the JavaScript string operations the code relies
  on: `indexOf`, `lastIndexOf`, `split`, `join` and `toLowerCase`. `Split`
  cuts at each non-overlapping occurrence, left to right, as JavaScript does.
  Its pieces are characterised exactly (`IsSplit`, `SplitUnique`).
- `Media` (`media.dfy`): the media helpers. Extension, file-name and path
  functions are pure functions. `getMediaStyle` is a method whose loop updates
  the default style record, field by field, as the source's `forEach` does.
- `OpenSong` (`opensong.dfy`): the importer. `CreateSlides` is a method whose
  loop builds the slide dictionary (a `map`) and the layout (a `seq`) in the
  source's order. `StoreSlide` is one turn of that loop: it builds one block's
  slide, stores it, and then tags the stored slide. The pure steps are
  functions: line filters, header lookup, lyric split and category rule.

The code's external inputs are parameters of the model:

- `uid()` becomes a sequence `ids` of distinct ids, one per block. The
  layout id is a separate parameter.
- The `groups` store becomes the set `knownGroups`.
- The drawer's active sub-tab becomes `activeSubTab`.
- The extension stores become the `ExtensionLists` record.
- `checkName` becomes a function parameter.

JavaScript objects are modelled as `map<string, Value>`, where `Value` holds
the kinds of JavaScript values with their truthiness. A missing property
reads as `undefined`.

One refinement of the category rule: line 37 turns `"all"` and
`"unlabeled"` into `null`. Line 40 then passes `category || null` to the show,
which also turns an empty sub-tab name into no category. `ShowCategory`
models both lines.

## Model

| member | source | states |
|---|---|---|
| `OpenSong.CreateSlides` | src/frontend/converters/opensong.ts:60-92 | One slide per lyric block, even a block with no text, because an array is always truthy. The layout has one entry per block, and entry `i` is the `i`-th fresh id. The slide keys are exactly those ids, so there are as many slides as blocks. The slide under id `i` is `SlideFor(lyrics[i])`. |
| `OpenSong.StoreSlide` | src/frontend/converters/opensong.ts:64-87 | One turn of the loop: the new dictionary is the old one with `id` mapped to the block's slide. This holds even after the stored slide is tagged with its global group. |
| `OpenSong.CreatedNext` | src/frontend/converters/opensong.ts:69-79 | Storing under a fresh id keeps the earlier slides unchanged. It adds exactly one key and one layout entry, in order. |
| `OpenSong.SlideForBlock` | src/frontend/converters/opensong.ts:64-87 | A block's slide has group `""`, no color, empty settings and notes, and one textbox with the fixed style. Its text lines are the block's lines 2, 4, 6, ... in order, `(n - 1) / 2` of them for `n` lines. So the header (line 0) and the chord lines (1, 3, 5, ...) never appear. Its global group comes from the header. |
| `OpenSong.HeaderOnlyBlock` | src/frontend/converters/opensong.ts:64-68 | A block with no line break is only a header, and its slide has no text lines. |
| `OpenSong.EvenIndexed` | src/frontend/converters/opensong.ts:66 | The chord filter keeps `ceil(n / 2)` lines, and element `k` is line `2k`. |
| `OpenSong.OddIndexed` | src/frontend/converters/opensong.ts:67 | The text filter keeps `floor(n / 2)` lines, and element `k` is line `2k + 1`. |
| `OpenSong.ChordsAndText` | src/frontend/converters/opensong.ts:64-67 | Chord lines and text lines, taken in turn, give back all the lines after the header. As multisets, they add up to those lines. |
| `OpenSong.TextLines` | src/frontend/converters/opensong.ts:74 | One textbox line per text line, each holding that text in one unstyled run. |
| `OpenSong.StripHeader` | src/frontend/converters/opensong.ts:86 | The key holds no `[`, `]` or digit, and it is no longer than the header. |
| `OpenSong.StripHeaderConcat` | src/frontend/converters/opensong.ts:86 | Stripping distributes over concatenation. |
| `OpenSong.StripHeaderUnmarked` | src/frontend/converters/opensong.ts:86 | A header without brackets or digits is its own key. |
| `OpenSong.StripHeaderMarks` | src/frontend/converters/opensong.ts:86 | A header made only of brackets and digits has the empty key. |
| `OpenSong.HeaderGroup` | src/frontend/converters/opensong.ts:86 | The `OSgroups` lookup: a group exactly when the stripped header is `V`, `C`, `B`, `T` or `O`, and then `V` gives `verse`, `C` `chorus`, `B` `bridge`, `T` `tag` and `O` `outro`. |
| `OpenSong.GlobalGroup` | src/frontend/converters/opensong.ts:86-87 | A global group is set exactly when the stripped header is one of V/C/B/T/O and its `OSgroups` name is a known group. The group is then that name. |
| `OpenSong.SameKeySameGroup` | src/frontend/converters/opensong.ts:86-87 | Headers with the same stripped key get the same global group. |
| `OpenSong.BracketedKey` | src/frontend/converters/opensong.ts:86 | `[` + key + number + `]` strips to the key. |
| `OpenSong.NumberedHeader` | src/frontend/converters/opensong.ts:86-87 | The block number never matters: `[X12]` gets the group of `X`. |
| `OpenSong.VerseHeader` | src/frontend/converters/opensong.ts:59-87 | `[V1]` is tagged `verse` exactly when `verse` is a known group. |
| `OpenSong.LyricBlocks` | src/frontend/converters/opensong.ts:110 | There is always at least one block. Joining the blocks with `"\n\n"` gives back the lyrics text. Each cut is at the first `"\n\n"` after the previous cut. |
| `OpenSong.ShowCategory` | src/frontend/converters/opensong.ts:36-40 | No category for a missing sub-tab, `"all"`, `"unlabeled"` or `""`. Any other sub-tab is kept as it is. |
| `OpenSong.ConvertSong` | src/frontend/converters/opensong.ts:36-52 | The show gets the category rule, `checkName(title)` as name, and metadata copied from the song. It has exactly one layout, under the layout id, with empty name and notes. That layout lists every block's fresh id in order, and each id is a slide key holding that block's slide. |
| `Strings.Split` | src/frontend/converters/opensong.ts:64 | `split` always gives at least one piece. Its pieces are characterised by `SplitIsSplit` and `SplitUnique`. |
| `Strings.IndexOf` | src/frontend/components/helpers/media.ts:12-13 | `indexOf` is -1 or a position where the separator occurs, and the separator occurs nowhere before it. |
| `Strings.LastIndexOf` | src/frontend/components/helpers/media.ts:36-37 | `lastIndexOf` is -1 or a position where the separator occurs, and the separator occurs nowhere after it. |
| `Strings.ToLower` | src/frontend/components/helpers/media.ts:25 | `toLowerCase` keeps the length, leaves no upper-case letter, lower-cases each letter and keeps every other character. |
| `Strings.SplitCharLast` | src/frontend/components/helpers/media.ts:43-44 | The last piece of a split at one character is what follows its last occurrence, or the whole string when it does not occur. |
| `Strings.SplitUnique` | src/frontend/converters/opensong.ts:64 | `split` is the only list of pieces that joins back to the string, cuts at the first separator each time, and leaves no separator in the last piece. |
| `Strings.SplitIsSplit` | src/frontend/converters/opensong.ts:110 | `split` meets that description. |
| `Strings.SplitCharCount` | src/frontend/components/helpers/media.ts:43-44 | Splitting at one character gives one more piece than that character's count. |
| `Media.GetExtension` | src/frontend/components/helpers/media.ts:10-15 | A path with no `.` (the empty path included) comes back unchanged, not lower-cased. Otherwise the result has no `.` or `?` and is lower case. It is the lower-cased text after the last `.` in the part before the first `?`, or all of that part if it has no `.`. |
| `Media.WithoutQuery` | src/frontend/components/helpers/media.ts:13 | The prefix before the first `?`: a prefix of the path that holds no `?`. When it is shorter than the path (the path has a `?`), the next character of the path is `?`. So a path without `?` comes back whole. |
| `Media.AfterLastDot` | src/frontend/components/helpers/media.ts:14 | A dot-free suffix that follows a `.`, or the whole text when it has no `.`. |
| `Media.ExtensionRoundTrip` | src/frontend/components/helpers/media.ts:10-20 | For `name + "." + ext + query`, with `name` and `ext` free of `?`, `ext` dot-free and `query` empty or starting with `?`, `getExtension` is lowercase(`ext`). `removeExtension(name + "." + ext)` is `name`. |
| `Media.ExtensionIsRemovedPart` | src/frontend/components/helpers/media.ts:10-20 | For a dotted path without a query, `getExtension` is the lower-cased part that `removeExtension` cuts off. |
| `Media.RemoveExtension` | src/frontend/components/helpers/media.ts:17-20 | The identity without a `.`. Otherwise `name == result + "." + s` with `s` dot-free, so the result is strictly shorter. |
| `Media.GetFileName` | src/frontend/components/helpers/media.ts:34-39 | Always a suffix of the path. With a `\` present, it is what follows the last `\`. Otherwise, with a `/` present, it is what follows the last `/`. Otherwise it is the whole path, and `""` for `""`. |
| `Media.SplitPath` | src/frontend/components/helpers/media.ts:41-46 | `[]` when there is no separator, the empty path included. Otherwise it splits at `\` if present, else at `/`. The parts join back to the path with that separator. There is one part more than separators, and no part holds the separator. |
| `Media.SplitPathLast` | src/frontend/components/helpers/media.ts:34-46 | For a path with a separator, the last part of `splitPath` is `getFileName`. |
| `Media.IsMediaExtension` | src/frontend/components/helpers/media.ts:22-26 | With `audio`, it is membership of the lower-cased extension in the audio list. Without it, membership in the image or video list. |
| `Media.GetMediaType` | src/frontend/components/helpers/media.ts:28-32 | Audio exactly when the lower-cased extension is an audio one. Video exactly when it is a video one and not audio. Otherwise image. |
| `Media.ClassifiersAgree` | src/frontend/components/helpers/media.ts:22-32 | Audio type means `isMediaExtension(e, true)`. Video type implies a media extension. A media extension typed image is in the image list. Audio wins over video. |
| `Media.ClassificationIgnoresCase` | src/frontend/components/helpers/media.ts:22-32 | Lower-casing the extension first changes neither classifier. |
| `Media.Truthy` | src/frontend/components/helpers/media.ts:109-113 | The falsy values are exactly `undefined`, `null`, NaN, `false`, `0` and `""`. Every other value, any object included, is truthy. |
| `Media.GetMediaStyle` | src/frontend/components/helpers/media.ts:95-116 | The loop computes `MediaStyleOf`. Its properties are the lemmas below. |
| `Media.MediaStyleFields` | src/frontend/components/helpers/media.ts:98-113 | The result has exactly the seven default keys, so extra keys are dropped. Each key other than `fit` takes the item's value only when it is truthy, so `0`, `false` and `""` keep the default. `fit` comes from a truthy `currentStyle.fit` first, then the same rule. |
| `Media.MediaStyleOfNone` | src/frontend/components/helpers/media.ts:96 | A missing media object gives `{}`. |
| `Media.MediaStyleIgnoresOtherKeys` | src/frontend/components/helpers/media.ts:108-111 | Only the seven style fields of the item affect the result. |
| `Media.MediaStyleIdempotent` | src/frontend/components/helpers/media.ts:98-115 | Merging a merged style again changes nothing. |
| `Media.MediaStyleDefaults` | src/frontend/components/helpers/media.ts:98-111 | An item with no truthy style field, and no current style, gets exactly the default style. |

## Left out

- `XMLtoObject`'s DOM parsing (`DOMParser`, `getElementsByTagName`) is a foreign XML library. The song is a record of strings that are already extracted. Only the split of the lyrics text at `"\n\n"` (`LyricBlocks`) is modelled.
- `uid()` is random. Ids come from a supplied sequence that is assumed never to repeat. The model does not cover what a repeated id would do, namely overwrite an earlier slide.
- `checkName` is defined in a file that is not part of this model. It is a function parameter.
- `ShowObj` is defined in a file that is not part of this model. `Show` holds only the fields `convertOpenSong` sets, plus the layout id passed to the constructor.
- The `history(...)` dispatch and `activePopup.set(null)` are external state changes and are not modelled.
- The `forEach` over several documents in `convertOpenSong` only repeats the per-song conversion (`ConvertSong`) and dispatches each result. That loop is not modelled.
- `console.log` calls are not modelled.
- Chords are computed and then discarded (a TODO in the source). The model states only how they are kept apart from the text.
- `OSgroups` is a plain object. A key such as `constructor` or `toString` finds an inherited property instead of `undefined`. The model treats only the five own keys as mapped. The same goes for a `groups` store that would have a key named `"undefined"`.
- `toLowerCase` is modelled for ASCII letters only. Other Unicode case mappings are left out, including those that change a string's length.
- The path helpers take strings. A `null` or `undefined` argument, which `!path` would also accept, is not modelled.
- `getMediaStyle`: numbers are `real`s plus a separate NaN value. Other floating-point behaviour, such as `-0` or rounding, is not modelled. Objects and arrays are a single always-truthy `Obj` value.
- `toDataURL` (XHR and FileReader, asynchronous I/O) is not modelled.
- `checkMedia` (a DOM media-element probe resolved by asynchronous callbacks, with a cache delete on error) is not modelled.
