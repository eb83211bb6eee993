/**
 Path, extension and style helpers for media files (images, videos, audio):
 `src/frontend/components/helpers/media.ts`. The extension lists that the
 source reads from stores are passed in as an ExtensionLists value.
 */
module Media {
  import opened Wrappers
  import opened Strings

  // ----- paths -----

  /** The part of a path before its first `?`, i.e. without a URL query. */
  function WithoutQuery(path: string): (q: string)
    ensures '?' !in q
    ensures |q| <= |path| && q == path[..|q|]
    ensures |q| < |path| ==> path[|q|] == '?'
  {
    if '?' !in path then path
    else
      IndexOfChar(path, '?');
      path[..IndexOf(path, "?")]
  }

  /** What follows the last `.` of `q`, or all of `q` when it has no `.`
      (`q.substring(q.lastIndexOf(".") + 1)`). */
  function AfterLastDot(q: string): (rest: string)
    ensures '.' !in rest
    ensures |rest| <= |q| && rest == q[|q| - |rest|..]
    ensures |rest| == |q| || q[|q| - |rest| - 1] == '.'
  {
    LastIndexOfChar(q, '.');
    q[LastIndexOf(q, ".") + 1..]
  }

  /** `getExtension(path)`: an empty path or one with no `.` comes back as it is
      (not lower-cased). Otherwise, after dropping any query, the result is the
      lower-cased text after the last `.`, or the whole remaining text if the
      query held the only dots. */
  function GetExtension(path: string): (ext: string)
    ensures '.' !in path ==> ext == path
    ensures '.' in path ==> '.' !in ext && '?' !in ext && IsLower(ext)
    ensures '.' in path ==>
      var q := WithoutQuery(path);
      && |ext| <= |q|
      && ext == ToLower(q[|q| - |ext|..])
      && (|ext| == |q| || q[|q| - |ext| - 1] == '.')
  {
    if path == "" then ""
    else if '.' !in path then path
    else
      var rest := AfterLastDot(WithoutQuery(path));
      ToLowerKeeps(rest, '.');
      ToLowerKeeps(rest, '?');
      ToLower(rest)
  }

  /** `removeExtension(name)`: a name with no `.` comes back as it is; otherwise
      the result is what stands before the last `.`, so `name` is the result, a
      `.`, and a dot-free extension. */
  function RemoveExtension(name: string): (base: string)
    ensures '.' !in name ==> base == name
    ensures '.' in name ==>
      && |base| < |name|
      && name == base + "." + name[|base| + 1..]
      && '.' !in name[|base| + 1..]
  {
    if '.' !in name then name
    else
      LastIndexOfChar(name, '.');
      var dot := LastIndexOf(name, ".");
      assert name == name[..dot] + "." + name[dot + 1..];
      name[..dot]
  }

  /** `getFileName(path)`: always a suffix of `path`; what follows the last `\`
      if there is one, else what follows the last `/` if there is one, else the
      whole path. */
  function GetFileName(path: string): (file: string)
    ensures |file| <= |path| && file == path[|path| - |file|..]
    ensures '\\' in path ==>
      |file| < |path| && '\\' !in file && path[|path| - |file| - 1] == '\\'
    ensures '\\' !in path && '/' in path ==>
      |file| < |path| && '/' !in file && path[|path| - |file| - 1] == '/'
    ensures '\\' !in path && '/' !in path ==> file == path
  {
    if path == "" then ""
    else if '\\' in path then
      LastIndexOfChar(path, '\\');
      path[LastIndexOf(path, "\\") + 1..]
    else if '/' in path then
      LastIndexOfChar(path, '/');
      path[LastIndexOf(path, "/") + 1..]
    else path
  }

  /** `splitPath(path)`: no parts for a path without separators (the empty path
      included). Otherwise it splits at `\` if the path has one, else at `/`:
      joining the parts with that separator gives the path back, there is one
      part more than separators, and no part holds the separator. (The join-back
      clause is quantified over the separator so that it comes into play only
      where a proof mentions joining the parts.) */
  function SplitPath(path: string): (parts: seq<string>)
    ensures '\\' !in path && '/' !in path ==> parts == []
    ensures '\\' in path ==>
      && (forall sep :: sep == "\\" ==> Join(parts, sep) == path)
      && |parts| == multiset(path)['\\'] + 1
      && forall k :: 0 <= k < |parts| ==> '\\' !in parts[k]
    ensures '\\' !in path && '/' in path ==>
      && (forall sep :: sep == "/" ==> Join(parts, sep) == path)
      && |parts| == multiset(path)['/'] + 1
      && forall k :: 0 <= k < |parts| ==> '/' !in parts[k]
  {
    if path == "" then []
    else if '\\' in path then
      SplitJoin(path, "\\");
      SplitCharCount(path, '\\');
      SplitCharPieces(path, '\\');
      Split(path, "\\")
    else if '/' in path then
      SplitJoin(path, "/");
      SplitCharCount(path, '/');
      SplitCharPieces(path, '/');
      Split(path, "/")
    else []
  }

  /** Both helpers prefer `\` to `/`, so for a path with a separator the last
      part of `splitPath` is `getFileName`. */
  lemma {:induction false} SplitPathLast(path: string)
    requires '\\' in path || '/' in path
    ensures |SplitPath(path)| >= 1
    ensures SplitPath(path)[|SplitPath(path)| - 1] == GetFileName(path)
  {
    var c := if '\\' in path then '\\' else '/';
    SeparatorParts(path, c);
    SplitCharLast(path, c);
  }

  /** With `c` the separator both helpers choose, `splitPath` is the split at
      `c` and `getFileName` is what follows the last `c`. */
  lemma {:induction false} SeparatorParts(path: string, c: char)
    requires c == if '\\' in path then '\\' else '/'
    requires c in path
    ensures SplitPath(path) == Split(path, [c])
    ensures GetFileName(path) == path[LastIndexOf(path, [c]) + 1..]
  {
  }

  /** A name, a dot-free extension and an optional query: `getExtension` gives
      the lower-cased extension, whatever the query holds, and
      `removeExtension` of the name with its extension gives the name back. */
  lemma {:induction false} ExtensionRoundTrip(name: string, ext: string, query: string)
    requires '.' !in ext && '?' !in name && '?' !in ext
    requires query == "" || query[0] == '?'
    ensures GetExtension(name + "." + ext + query) == ToLower(ext)
    ensures RemoveExtension(name + "." + ext) == name
  {
    var file := name + "." + ext;
    assert file[|name|] == '.' && file[|name| + 1..] == ext;
    LastIndexOfCharAt(file, '.', |name|);
    var path := file + query;
    assert path[|name|] == '.';
    assert '?' !in file;
    assert path[..|file|] == file;
    assert WithoutQuery(path) == file by {
      IndexOfChar(path, '?');
      if query != "" {
        assert path[|file|] == '?';
      }
    }
  }

  /** For a path with a dot and no query, `getExtension` is the lower-cased
      part that `removeExtension` cuts off. */
  lemma {:induction false} ExtensionIsRemovedPart(path: string)
    requires '.' in path && '?' !in path
    ensures GetExtension(path) == ToLower(path[|RemoveExtension(path)| + 1..])
  {
    var base := RemoveExtension(path);
    ExtensionRoundTrip(base, path[|base| + 1..], "");
  }

  // ----- extension classification -----

  /** The extension lists the source keeps in its stores. */
  datatype ExtensionLists = ExtensionLists(image: seq<string>, video: seq<string>, audio: seq<string>)

  /** The kinds of media a show item can be. */
  datatype MediaType = Image | Video | Audio

  /** `isMediaExtension(extension, audio)`: case-insensitive membership in the
      audio list when `audio` is set, otherwise in the image or video list. */
  function IsMediaExtension(extension: string, audio: bool, lists: ExtensionLists): (b: bool)
    ensures audio ==> (b <==> ToLower(extension) in lists.audio)
    ensures !audio ==> (b <==> ToLower(extension) in lists.image || ToLower(extension) in lists.video)
  {
    var extensions := if audio then lists.audio else lists.image + lists.video;
    ToLower(extension) in extensions
  }

  /** `getMediaType(extension)`: audio is checked first, then video, and
      every other extension counts as an image. */
  function GetMediaType(extension: string, lists: ExtensionLists): (t: MediaType)
    ensures t == Audio <==> ToLower(extension) in lists.audio
    ensures t == Video <==> ToLower(extension) !in lists.audio && ToLower(extension) in lists.video
  {
    if ToLower(extension) in lists.audio then Audio
    else if ToLower(extension) in lists.video then Video
    else Image
  }

  /** The two classifiers agree: audio is what `isMediaExtension(_, true)`
      accepts, a video is a media extension, and an accepted extension that
      is classified as an image is in the image list. An extension in both
      the audio and the video list is audio. */
  lemma {:induction false} ClassifiersAgree(extension: string, lists: ExtensionLists)
    ensures GetMediaType(extension, lists) == Audio <==> IsMediaExtension(extension, true, lists)
    ensures GetMediaType(extension, lists) == Video ==> IsMediaExtension(extension, false, lists)
    ensures GetMediaType(extension, lists) == Image && IsMediaExtension(extension, false, lists) ==>
      ToLower(extension) in lists.image
    ensures ToLower(extension) in lists.audio && ToLower(extension) in lists.video ==>
      GetMediaType(extension, lists) == Audio
  {
  }

  /** Classification ignores letter case. */
  lemma {:induction false} ClassificationIgnoresCase(extension: string, audio: bool, lists: ExtensionLists)
    ensures GetMediaType(ToLower(extension), lists) == GetMediaType(extension, lists)
    ensures IsMediaExtension(ToLower(extension), audio, lists) == IsMediaExtension(extension, audio, lists)
  {
    ToLowerOfLower(ToLower(extension));
  }

  // ----- media style -----

  /** The JavaScript values a style field can hold (objects and arrays all as Obj). */
  datatype Value = Undefined | Null | Bool(b: bool) | Num(x: real) | NaN | Str(s: string) | Obj

  /** JavaScript truthiness: `false`, `0`, NaN, `""`, `null` and `undefined` are falsy. */
  predicate Truthy(v: Value): (truthy: bool)
    ensures !truthy <==> v in {Undefined, Null, NaN, Bool(false), Num(0.0), Str("")}
  {
    match v
    case Bool(b) => b
    case Num(x) => x != 0.0
    case Str(s) => s != ""
    case Obj => true
    case _ => false
  }

  /** A JavaScript object as its own enumerable properties. */
  type Record = map<string, Value>

  /** `r[key]`: `undefined` for a missing property. */
  function Get(r: Record, key: string): Value
  {
    if key in r then r[key] else Undefined
  }

  /** The fields of a media style, in the order `Object.keys` visits them. */
  const StyleKeys: seq<string> := ["filter", "flipped", "flippedY", "fit", "speed", "fromTime", "toTime"]

  /** The style a media item has when nothing overrides it. */
  const DefaultStyle: Record := map[
    "filter" := Str(""),
    "flipped" := Bool(false),
    "flippedY" := Bool(false),
    "fit" := Str("contain"),
    "speed" := Str("1"),
    "fromTime" := Num(0.0),
    "toTime" := Num(0.0)]

  /** The value `getMediaStyle` computes: `{}` for a missing `mediaObj`;
      otherwise every default field replaced by the item's own value when
      that is truthy, and `fit` taken last from a truthy `currentStyle.fit`. */
  function MediaStyleOf(mediaObj: Option<Record>, currentStyle: Option<Record>): Record
  {
    match mediaObj
    case None => map[]
    case Some(m) =>
      var merged := map k | k in DefaultStyle :: if Truthy(Get(m, k)) then m[k] else DefaultStyle[k];
      if currentStyle.Some? && Truthy(Get(currentStyle.value, "fit"))
      then merged["fit" := currentStyle.value["fit"]]
      else merged
  }

  /** `getMediaStyle(mediaObj, currentStyle)`. */
  method GetMediaStyle(mediaObj: Option<Record>, currentStyle: Option<Record>) returns (style: Record)
    ensures style == MediaStyleOf(mediaObj, currentStyle)
  {
    if mediaObj.None? {
      return map[];
    }
    var m := mediaObj.value;
    style := DefaultStyle;
    var i := 0;
    while i < |StyleKeys|
      invariant 0 <= i <= |StyleKeys|
      invariant style.Keys == DefaultStyle.Keys
      invariant forall k :: k in DefaultStyle ==>
        style[k] == if k in StyleKeys[..i] && Truthy(Get(m, k)) then m[k] else DefaultStyle[k]
    {
      var key := StyleKeys[i];
      assert StyleKeys[..i + 1] == StyleKeys[..i] + [key];
      if Truthy(Get(m, key)) {
        style := style[key := m[key]];
      }
      i := i + 1;
    }
    assert StyleKeys[..i] == StyleKeys;
    MergedStyle(m, style);
    if currentStyle.Some? && Truthy(Get(currentStyle.value, "fit")) {
      style := style["fit" := currentStyle.value["fit"]];
    }
  }

  /** A style with the default fields, each the item's value when that is
      truthy and the default otherwise, is the merge `MediaStyleOf` starts from. */
  lemma {:induction false} MergedStyle(m: Record, style: Record)
    requires style.Keys == DefaultStyle.Keys
    requires forall k :: k in DefaultStyle ==>
      style[k] == if k in StyleKeys && Truthy(Get(m, k)) then m[k] else DefaultStyle[k]
    ensures style == map k | k in DefaultStyle :: if Truthy(Get(m, k)) then m[k] else DefaultStyle[k]
  {
  }

  /** The style has exactly the seven default fields (others are dropped); each
      but `fit` is the item's value when that is truthy and the default
      otherwise, so `0`, `false` and `""` keep the default; `fit` is
      `currentStyle.fit` when that is truthy, else follows the same rule. */
  lemma {:induction false} MediaStyleFields(m: Record, currentStyle: Option<Record>)
    ensures MediaStyleOf(Some(m), currentStyle).Keys == set k | k in StyleKeys
    ensures forall k :: k in DefaultStyle && k != "fit" ==>
      MediaStyleOf(Some(m), currentStyle)[k] == if Truthy(Get(m, k)) then m[k] else DefaultStyle[k]
    ensures MediaStyleOf(Some(m), currentStyle)["fit"] ==
      if currentStyle.Some? && Truthy(Get(currentStyle.value, "fit")) then currentStyle.value["fit"]
      else if Truthy(Get(m, "fit")) then m["fit"]
      else Str("contain")
  {
  }

  /** A missing media object gives the empty object. */
  lemma {:induction false} MediaStyleOfNone(currentStyle: Option<Record>)
    ensures MediaStyleOf(None, currentStyle) == map[]
  {
  }

  /** Only the seven style fields of the item matter. */
  lemma {:induction false} MediaStyleIgnoresOtherKeys(m: Record, m': Record, currentStyle: Option<Record>)
    requires forall k :: k in DefaultStyle ==> Get(m, k) == Get(m', k)
    ensures MediaStyleOf(Some(m), currentStyle) == MediaStyleOf(Some(m'), currentStyle)
  {
  }

  /** Applying the rule to its own result changes nothing. */
  lemma {:induction false} MediaStyleIdempotent(m: Record, currentStyle: Option<Record>)
    ensures MediaStyleOf(Some(MediaStyleOf(Some(m), currentStyle)), currentStyle) == MediaStyleOf(Some(m), currentStyle)
  {
  }

  /** An item with no truthy style field gets the default style. */
  lemma {:induction false} MediaStyleDefaults(m: Record)
    requires forall k :: k in DefaultStyle ==> !Truthy(Get(m, k))
    ensures MediaStyleOf(Some(m), None) == DefaultStyle
  {
  }
}
