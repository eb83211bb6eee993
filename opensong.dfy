/**
 The OpenSong importer: `src/frontend/converters/opensong.ts`. A song's
 `<lyrics>` text is cut into blocks at blank lines; each block (a `[V1]`-style
 header line, then chord and text lines taking turns) becomes one slide, and
 the layout lists the slides in block order. Fresh ids come from a supplied
 sequence instead of `uid()`, the set of known global groups and the active
 drawer sub-tab are parameters instead of store reads, and `checkName` is a
 function parameter.
 */
module OpenSong {
  import opened Wrappers
  import opened Strings

  // ----- the song record and its lyrics -----

  /** The fields `XMLtoObject` takes from an OpenSong document. */
  datatype Song = Song(
    title: string,
    author: string,
    copyright: string,
    ccli: string,
    lyrics: seq<string>,
    hymnNumber: string,
    key: string,
    timeSig: string,
    backgrounds: string)

  /** The lyric blocks of a song: the `<lyrics>` text split at `"\n\n"`. There
      is always at least one block, joining them back with `"\n\n"` gives the
      text again, and each cut is made at the first `"\n\n"` after the previous
      one (IsSplit), which fixes the blocks uniquely (SplitUnique). */
  function LyricBlocks(lyricsText: string): (blocks: seq<string>)
    ensures |blocks| >= 1
    ensures Join(blocks, "\n\n") == lyricsText
    ensures IsSplit(lyricsText, "\n\n", blocks)
  {
    SplitIsSplit(lyricsText, "\n\n");
    Split(lyricsText, "\n\n")
  }

  // ----- category -----

  /** The category a new show gets from the active sub-tab of the shows drawer:
      none for `"all"`, `"unlabeled"`, the empty string (falsy in
      `category || null`) or a missing sub-tab; the sub-tab itself otherwise. */
  function ShowCategory(activeSubTab: Option<string>): (category: Option<string>)
    ensures category.None? <==>
      activeSubTab.None? || activeSubTab.value == "all" || activeSubTab.value == "unlabeled" || activeSubTab.value == ""
    ensures category.Some? ==> category == activeSubTab
  {
    var normalised := if activeSubTab == Some("all") || activeSubTab == Some("unlabeled") then None else activeSubTab;
    if normalised == Some("") then None else normalised
  }

  // ----- group headers -----

  /** The header letters OpenSong uses and the global groups they stand for. */
  const OSGroups: map<string, string> := map["V" := "verse", "C" := "chorus", "B" := "bridge", "T" := "tag", "O" := "outro"]

  /** The characters `/[\[\]0-9]/g` removes from a header. */
  predicate IsHeaderMark(c: char)
  {
    c == '[' || c == ']' || '0' <= c <= '9'
  }

  /** `header.replace(/[\[\]0-9]/g, "")`: the header without brackets and digits. */
  function StripHeader(header: string): (key: string)
    ensures |key| <= |header|
    ensures forall i :: 0 <= i < |key| ==> !IsHeaderMark(key[i])
  {
    if header == "" then ""
    else (if IsHeaderMark(header[0]) then "" else [header[0]]) + StripHeader(header[1..])
  }

  /** Stripping works piecewise: it distributes over concatenation. */
  lemma {:induction false} StripHeaderConcat(a: string, b: string)
    ensures StripHeader(a + b) == StripHeader(a) + StripHeader(b)
  {
    if a == "" {
      assert a + b == b;
    } else {
      var first: string := if IsHeaderMark(a[0]) then "" else [a[0]];
      assert (a + b)[0] == a[0];
      assert (a + b)[1..] == a[1..] + b;
      assert StripHeader(a) == first + StripHeader(a[1..]);
      assert StripHeader(a + b) == first + StripHeader(a[1..] + b);
      StripHeaderConcat(a[1..], b);
    }
  }

  /** A header with no bracket or digit is its own key. */
  lemma {:induction false} StripHeaderUnmarked(header: string)
    requires forall i :: 0 <= i < |header| ==> !IsHeaderMark(header[i])
    ensures StripHeader(header) == header
  {
    if header != "" {
      StripHeaderUnmarked(header[1..]);
    }
  }

  /** A header made only of brackets and digits has the empty key. */
  lemma {:induction false} StripHeaderMarks(header: string)
    requires forall i :: 0 <= i < |header| ==> IsHeaderMark(header[i])
    ensures StripHeader(header) == ""
  {
    if header != "" {
      StripHeaderMarks(header[1..]);
    }
  }

  /** `OSgroups[key]`: the global group a header names, if its key is one of
      V, C, B, T, O (the lookup is `undefined` otherwise). */
  function HeaderGroup(header: string): (group: Option<string>)
    ensures group.Some? <==> StripHeader(header) in {"V", "C", "B", "T", "O"}
    ensures group == Some("verse") <==> StripHeader(header) == "V"
    ensures group == Some("chorus") <==> StripHeader(header) == "C"
    ensures group == Some("bridge") <==> StripHeader(header) == "B"
    ensures group == Some("tag") <==> StripHeader(header) == "T"
    ensures group == Some("outro") <==> StripHeader(header) == "O"
  {
    var key := StripHeader(header);
    if key in OSGroups then Some(OSGroups[key]) else None
  }

  /** The global group a slide with this header is tagged with: the header's
      group, provided it is one of the known global groups. */
  function GlobalGroup(header: string, knownGroups: set<string>): (globalGroup: Option<string>)
    ensures globalGroup.Some? <==> StripHeader(header) in OSGroups && OSGroups[StripHeader(header)] in knownGroups
    ensures globalGroup.Some? ==> globalGroup.value == OSGroups[StripHeader(header)]
  {
    var group := HeaderGroup(header);
    if group.Some? && group.value in knownGroups then group else None
  }

  /** `[` + letter + number + `]` maps as the letter alone does: the block
      number never matters; so `[V1]` means `verse`. */
  lemma {:induction false} NumberedHeader(letter: string, number: string, knownGroups: set<string>)
    requires forall i :: 0 <= i < |letter| ==> !IsHeaderMark(letter[i])
    requires forall i :: 0 <= i < |number| ==> '0' <= number[i] <= '9'
    ensures StripHeader("[" + letter + number + "]") == letter
    ensures GlobalGroup("[" + letter + number + "]", knownGroups) == GlobalGroup(letter, knownGroups)
  {
    BracketedKey(letter, number);
    StripHeaderUnmarked(letter);
    SameKeySameGroup("[" + letter + number + "]", letter, knownGroups);
  }

  /** Only a header's key decides its global group. */
  lemma {:induction false} SameKeySameGroup(header: string, header': string, knownGroups: set<string>)
    requires StripHeader(header) == StripHeader(header')
    ensures GlobalGroup(header, knownGroups) == GlobalGroup(header', knownGroups)
  {
  }

  /** Brackets and a number around a key leave the key. */
  lemma {:induction false} BracketedKey(letter: string, number: string)
    requires forall i :: 0 <= i < |letter| ==> !IsHeaderMark(letter[i])
    requires forall i :: 0 <= i < |number| ==> '0' <= number[i] <= '9'
    ensures StripHeader("[" + letter + number + "]") == letter
  {
    StripHeaderUnmarked(letter);
    StripHeaderMarks(number);
    StripHeaderMarks("[");
    StripHeaderMarks("]");
    var open := "[" + letter;
    StripHeaderConcat("[", letter);
    StripHeaderConcat(open, number);
    StripHeaderConcat(open + number, "]");
  }

  /** `[V1]` is a verse when `verse` is a known global group, and untagged when it is not. */
  lemma {:induction false} VerseHeader(knownGroups: set<string>)
    ensures GlobalGroup("[V1]", knownGroups) == if "verse" in knownGroups then Some("verse") else None
  {
    NumberedHeader("V", "1", knownGroups);
    assert "[" + "V" + "1" + "]" == "[V1]";
    StripHeaderUnmarked("V");
  }

  // ----- chords and text -----

  /** The elements at even positions (0, 2, 4, ...): `filter((_, i) => !(i % 2))`. */
  function EvenIndexed<T>(s: seq<T>): (r: seq<T>)
    ensures |r| == (|s| + 1) / 2
    ensures forall k :: 0 <= k < |r| ==> r[k] == s[2 * k]
    decreases |s|
  {
    if s == [] then [] else [s[0]] + OddIndexed(s[1..])
  }

  /** The elements at odd positions (1, 3, 5, ...): `filter((_, i) => i % 2)`. */
  function OddIndexed<T>(s: seq<T>): (r: seq<T>)
    ensures |r| == |s| / 2
    ensures forall k :: 0 <= k < |r| ==> r[k] == s[2 * k + 1]
    decreases |s|
  {
    if s == [] then [] else EvenIndexed(s[1..])
  }

  /** Takes from `a` and `b` in turn, starting with `a`, until both are used up. */
  function Interleave<T>(a: seq<T>, b: seq<T>): seq<T>
    decreases |a| + |b|
  {
    if a == [] then b else [a[0]] + Interleave(b, a[1..])
  }

  /** Chord lines and text lines, taken in turn, are all the lines again: none
      is lost and none is in both. */
  lemma {:induction false} ChordsAndText<T>(lines: seq<T>)
    ensures Interleave(EvenIndexed(lines), OddIndexed(lines)) == lines
    ensures multiset(EvenIndexed(lines)) + multiset(OddIndexed(lines)) == multiset(lines)
    decreases |lines|
  {
    if lines != [] {
      var rest := lines[1..];
      ChordsAndText(rest);
      assert EvenIndexed(lines) == [lines[0]] + OddIndexed(rest);
      assert lines == [lines[0]] + rest;
    }
  }

  // ----- slides -----

  /** One run of text in a line. */
  datatype TextRun = TextRun(style: string, value: string)

  /** One line of a textbox. */
  datatype Line = Line(align: string, text: seq<TextRun>)

  /** A textbox on a slide. */
  datatype Item = Item(style: string, lines: seq<Line>)

  /** A slide as the importer stores it; `globalGroup` is absent unless set. */
  datatype Slide = Slide(
    group: string,
    color: Option<string>,
    settings: map<string, string>,
    notes: string,
    items: seq<Item>,
    globalGroup: Option<string>)

  /** One entry of a layout: the id of a slide. */
  datatype LayoutRef = LayoutRef(id: string)

  /** The position of the single textbox of an imported slide. */
  const ItemStyle: string := "left:50px;top:120px;width:1820px;height:840px;"

  /** `text.map(a => ({ align: "", text: [{ style: "", value: a }] }))`. */
  function TextLines(text: seq<string>): (lines: seq<Line>)
    ensures |lines| == |text|
    ensures forall k :: 0 <= k < |text| ==> lines[k] == Line("", [TextRun("", text[k])])
  {
    seq(|text|, k requires 0 <= k < |text| => Line("", [TextRun("", text[k])]))
  }

  /** The first line of a block: its group header. */
  function Header(block: string): string
  {
    Split(block, "\n")[0]
  }

  /** The slide a lyric block becomes before any global group is set. */
  function UntaggedSlide(block: string): Slide
  {
    var text := OddIndexed(Split(block, "\n")[1..]);
    Slide("", None, map[], "", [Item(ItemStyle, TextLines(text))], None)
  }

  /** The slide one lyric block becomes. */
  function SlideFor(block: string, knownGroups: set<string>): Slide
  {
    UntaggedSlide(block).(globalGroup := GlobalGroup(Header(block), knownGroups))
  }

  /** What a block's slide holds: group `""`, no color, empty settings and
      notes, and one textbox with the fixed style. With `lines` the block's
      lines, `lines[0]` the header: the textbox has `(|lines| - 1) / 2` lines,
      the block's lines 2, 4, 6, ... in order, so the header and the chord lines
      (1, 3, 5, ...) never appear. The global group comes from the header. */
  lemma {:induction false} SlideForBlock(block: string, knownGroups: set<string>)
    ensures var lines := Split(block, "\n");
      var slide := SlideFor(block, knownGroups);
      && slide.group == "" && slide.color == None && slide.settings == map[] && slide.notes == ""
      && |slide.items| == 1 && slide.items[0].style == ItemStyle
      && |slide.items[0].lines| == (|lines| - 1) / 2
      && (forall k :: 0 <= k < |slide.items[0].lines| ==>
            slide.items[0].lines[k] == Line("", [TextRun("", lines[2 * k + 2])]))
      && slide.globalGroup == GlobalGroup(lines[0], knownGroups)
  {
    var lines := Split(block, "\n");
    var text := OddIndexed(lines[1..]);
    forall k | 0 <= k < |text|
      ensures text[k] == lines[2 * k + 2]
    {
      assert lines[1..][2 * k + 1] == lines[2 * k + 2];
    }
  }

  /** A block with no line break is a header alone: its slide has no text. */
  lemma {:induction false} HeaderOnlyBlock(block: string, knownGroups: set<string>)
    requires '\n' !in block
    ensures SlideFor(block, knownGroups).items[0].lines == []
  {
    SplitCharCount(block, '\n');
    assert multiset(block)['\n'] == 0;
  }

  /** The ids are pairwise distinct. */
  predicate Distinct(ids: seq<string>)
  {
    forall a, b :: 0 <= a < b < |ids| ==> ids[a] != ids[b]
  }

  /** The first `n` ids, as a set. */
  ghost function FirstIds(ids: seq<string>, n: nat): set<string>
    requires n <= |ids|
  {
    set i | 0 <= i < n :: ids[i]
  }

  /** The work `createSlides` does on one block: split it into lines, take the
      header off the front (`splice(0, 1)`), set the chord lines apart from the
      text lines, store the slide holding the text under `id`, and then tag the
      stored slide with the header's global group if that group is known. */
  method StoreSlide(slides: map<string, Slide>, id: string, block: string, knownGroups: set<string>)
    returns (stored: map<string, Slide>)
    ensures stored == slides[id := SlideFor(block, knownGroups)]
  {
    var lines := Split(block, "\n");
    var group := lines[0];
    lines := lines[1..];
    // the chord lines are set apart but not put on the slide
    var chords := EvenIndexed(lines);
    var text := OddIndexed(lines);
    var items := [Item(ItemStyle, TextLines(text))];
    stored := slides[id := Slide("", None, map[], "", items, None)];
    var globalGroup := HeaderGroup(group);
    if globalGroup.Some? && globalGroup.value in knownGroups {
      stored := stored[id := stored[id].(globalGroup := globalGroup)];
    }
  }

  /** `createSlides(song)`: one slide per lyric block, stored under the next
      fresh id, and the layout lists those ids in block order. The supply holds
      an unused id for every block. */
  method CreateSlides(lyrics: seq<string>, ids: seq<string>, knownGroups: set<string>)
    returns (slides: map<string, Slide>, layout: seq<LayoutRef>)
    requires |ids| >= |lyrics| && Distinct(ids)
    ensures |layout| == |lyrics| && |slides| == |lyrics|
    ensures forall i :: 0 <= i < |lyrics| ==> layout[i] == LayoutRef(ids[i])
    ensures slides.Keys == FirstIds(ids, |lyrics|)
    ensures forall i :: 0 <= i < |lyrics| ==> slides[ids[i]] == SlideFor(lyrics[i], knownGroups)
  {
    slides := map[];
    layout := [];
    ghost var expected := seq(|lyrics|, i requires 0 <= i < |lyrics| => SlideFor(lyrics[i], knownGroups));
    var n := 0;
    while n < |lyrics|
      invariant 0 <= n <= |lyrics|
      invariant Created(slides, layout, ids, expected, n)
    {
      // `if (text)` always holds: an array is truthy even when empty
      var id := ids[n];
      ghost var before, earlier := slides, layout;
      layout := layout + [LayoutRef(id)];
      slides := StoreSlide(slides, id, lyrics[n], knownGroups);
      CreatedNext(before, earlier, ids, expected, n);
      n := n + 1;
    }
  }

  /** What CreateSlides has built after its first `n` blocks, `expected[i]`
      being the slide of block `i`. */
  ghost predicate Created(slides: map<string, Slide>, layout: seq<LayoutRef>, ids: seq<string>, expected: seq<Slide>, n: nat)
    requires n <= |expected| <= |ids|
  {
    && |layout| == n && |slides| == n
    && (forall i :: 0 <= i < n ==> layout[i] == LayoutRef(ids[i]))
    && slides.Keys == FirstIds(ids, n)
    && (forall i :: 0 <= i < n ==> slides[ids[i]] == expected[i])
  }

  /** One turn of CreateSlides's loop: the slide goes under a fresh id, the
      earlier slides stay as they were, and the layout grows by that id. */
  lemma {:induction false} CreatedNext(slides: map<string, Slide>, layout: seq<LayoutRef>, ids: seq<string>, expected: seq<Slide>, n: nat)
    requires n < |expected| <= |ids| && Distinct(ids)
    requires Created(slides, layout, ids, expected, n)
    ensures Created(slides[ids[n] := expected[n]], layout + [LayoutRef(ids[n])], ids, expected, n + 1)
  {
    assert forall i :: 0 <= i < n ==> ids[i] != ids[n];
    LayoutNext(layout, ids, n);
    SlidesNext(slides, ids, expected, n);
  }

  /** The layout half of CreatedNext. */
  lemma {:induction false} LayoutNext(layout: seq<LayoutRef>, ids: seq<string>, n: nat)
    requires n < |ids| && |layout| == n
    requires forall i :: 0 <= i < n ==> layout[i] == LayoutRef(ids[i])
    ensures |layout + [LayoutRef(ids[n])]| == n + 1
    ensures forall i :: 0 <= i < n + 1 ==> (layout + [LayoutRef(ids[n])])[i] == LayoutRef(ids[i])
  {
    var layout' := layout + [LayoutRef(ids[n])];
    assert forall i :: 0 <= i < n ==> layout'[i] == layout[i];
  }

  /** The slides half of CreatedNext, for an id `n` unlike the earlier ones
      (whatever the stored values are). */
  lemma {:induction false} SlidesNext<V>(slides: map<string, V>, ids: seq<string>, expected: seq<V>, n: nat)
    requires n < |expected| <= |ids|
    requires forall i :: 0 <= i < n ==> ids[i] != ids[n]
    requires |slides| == n && slides.Keys == FirstIds(ids, n)
    requires forall i :: 0 <= i < n ==> slides[ids[i]] == expected[i]
    ensures |slides[ids[n] := expected[n]]| == n + 1
    ensures slides[ids[n] := expected[n]].Keys == FirstIds(ids, n + 1)
    ensures forall i :: 0 <= i < n + 1 ==> slides[ids[n] := expected[n]][ids[i]] == expected[i]
  {
    IdsNext(ids, n);
    assert ids[n] !in slides;
    var slides' := slides[ids[n] := expected[n]];
    assert slides'.Keys == slides.Keys + {ids[n]};
    forall i | 0 <= i < n + 1
      ensures slides'[ids[i]] == expected[i]
    {
      if i < n {
        assert ids[i] != ids[n];
      }
    }
  }

  /** The first `n + 1` ids are the first `n` and id `n`. */
  lemma {:induction false} IdsNext(ids: seq<string>, n: nat)
    requires n < |ids|
    ensures FirstIds(ids, n + 1) == FirstIds(ids, n) + {ids[n]}
  {
    forall x | x in FirstIds(ids, n + 1)
      ensures x in FirstIds(ids, n) + {ids[n]}
    {
      var i :| 0 <= i < n + 1 && ids[i] == x;
      if i < n {
        assert x in FirstIds(ids, n);
      }
    }
  }

  // ----- one imported show -----

  /** The metadata of a show. */
  datatype Meta = Meta(title: string, author: string, copyright: string, ccli: string)

  /** A named layout: the order in which slides are shown. */
  datatype Layout = Layout(name: string, notes: string, slides: seq<LayoutRef>)

  /** The fields of the new show that `convertOpenSong` fills in; `layoutId` is the
      id handed to the show's constructor. */
  datatype Show = Show(
    category: Option<string>,
    layoutId: string,
    name: string,
    meta: Meta,
    slides: map<string, Slide>,
    layouts: map<string, Layout>)

  /** The show `convertOpenSong` builds for one song: its category from the
      active sub-tab, its name from `checkName(title)`, its metadata, the slides
      of `createSlides` and one layout, under `layoutId`, listing them in block
      order. */
  method ConvertSong(
    song: Song, activeSubTab: Option<string>, layoutId: string, ids: seq<string>,
    knownGroups: set<string>, checkName: string -> string)
    returns (show: Show)
    requires |ids| >= |song.lyrics| && Distinct(ids)
    ensures show.category == ShowCategory(activeSubTab)
    ensures show.layoutId == layoutId
    ensures show.name == checkName(song.title)
    ensures show.meta == Meta(show.name, song.author, song.copyright, song.ccli)
    ensures show.layouts.Keys == {layoutId}
    ensures show.layouts[layoutId].name == "" && show.layouts[layoutId].notes == ""
    ensures |show.layouts[layoutId].slides| == |song.lyrics| == |show.slides|
    ensures forall i :: 0 <= i < |song.lyrics| ==> show.layouts[layoutId].slides[i] == LayoutRef(ids[i])
    ensures show.slides.Keys == FirstIds(ids, |song.lyrics|)
    ensures forall i :: 0 <= i < |song.lyrics| ==> show.slides[ids[i]] == SlideFor(song.lyrics[i], knownGroups)
  {
    var category := ShowCategory(activeSubTab);
    var name := checkName(song.title);
    var meta := Meta(name, song.author, song.copyright, song.ccli);
    var slides, layout := CreateSlides(song.lyrics, ids, knownGroups);
    show := Show(category, layoutId, name, meta, slides, map[layoutId := Layout("", "", layout)]);
  }
}
