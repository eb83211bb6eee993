/**
 The `String.prototype` operations the media helpers and the OpenSong
 converter rely on (`indexOf`, `lastIndexOf`, `split`, `join`,
 `toLowerCase`), over `string`, which is `seq<char>`.
 */
module Strings {

  /** `sep` occurs in `s` starting at position `j`. */
  predicate OccursAt(s: string, sep: string, j: int)
  {
    0 <= j && j + |sep| <= |s| && s[j..j + |sep|] == sep
  }

  /** First position at or after `from` where `sep` occurs in `s`, or -1. */
  function IndexFrom(s: string, sep: string, from: nat): (i: int)
    ensures i == -1 || (from <= i && OccursAt(s, sep, i))
    ensures forall j :: from <= j && (i == -1 || j < i) ==> !OccursAt(s, sep, j)
    decreases |s| - from
  {
    if from + |sep| > |s| then -1
    else if OccursAt(s, sep, from) then from
    else IndexFrom(s, sep, from + 1)
  }

  /** `s.indexOf(sep)`: the first occurrence of `sep` in `s`, or -1 when there is none. */
  function IndexOf(s: string, sep: string): (i: int)
    ensures i == -1 || OccursAt(s, sep, i)
    ensures forall j :: 0 <= j && (i == -1 || j < i) ==> !OccursAt(s, sep, j)
  {
    IndexFrom(s, sep, 0)
  }

  /** Last position at or before `j` where `sep` occurs in `s`, or -1. */
  function LastIndexAtMost(s: string, sep: string, j: int): (i: int)
    ensures i == -1 || (i <= j && OccursAt(s, sep, i))
    ensures forall k :: i < k <= j ==> !OccursAt(s, sep, k)
    decreases j + 1
  {
    if j < 0 then -1
    else if OccursAt(s, sep, j) then j
    else LastIndexAtMost(s, sep, j - 1)
  }

  /** `s.lastIndexOf(sep)`: the last occurrence of `sep` in `s`, or -1 when there is none. */
  function LastIndexOf(s: string, sep: string): (i: int)
    ensures i == -1 || OccursAt(s, sep, i)
    ensures forall k :: i < k ==> !OccursAt(s, sep, k)
  {
    LastIndexAtMost(s, sep, |s|)
  }

  /** `parts.join(sep)`. */
  function Join(parts: seq<string>, sep: string): string
  {
    if |parts| == 0 then ""
    else if |parts| == 1 then parts[0]
    else parts[0] + sep + Join(parts[1..], sep)
  }

  /** The pieces of a split: joining them gives back `s`, every piece but the
      last is followed by the first occurrence of `sep` at or after its start, and
      the last piece holds no `sep` at all. These conditions pick out exactly one
      list (SplitUnique). */
  ghost predicate IsSplit(s: string, sep: string, parts: seq<string>)
  {
    && |parts| >= 1
    && Join(parts, sep) == s
    && (forall k :: 0 <= k < |parts| - 1 ==> IndexOf(parts[k] + sep, sep) == |parts[k]|)
    && IndexOf(parts[|parts| - 1], sep) == -1
  }

  /** `s.split(sep)` for a non-empty separator: cut `s` at each occurrence of
      `sep`, scanning left to right, occurrences not overlapping. */
  function Split(s: string, sep: string): (parts: seq<string>)
    requires |sep| > 0
    ensures |parts| >= 1
    decreases |s|
  {
    var i := IndexOf(s, sep);
    if i < 0 then [s] else [s[..i]] + Split(s[i + |sep|..], sep)
  }

  /** `s.split(sep)` satisfies IsSplit: in particular joining its pieces with
      `sep` gives back `s`. */
  lemma {:induction false} SplitIsSplit(s: string, sep: string)
    requires |sep| > 0
    ensures IsSplit(s, sep, Split(s, sep))
    decreases |s|
  {
    var i := IndexOf(s, sep);
    if i >= 0 {
      var rest := s[i + |sep|..];
      IndexOfPrefix(s, sep);
      assert s == s[..i] + sep + rest by {
        assert s == s[..i] + s[i..i + |sep|] + rest;
      }
      SplitIsSplit(rest, sep);
      var parts := Split(s, sep);
      assert parts == [s[..i]] + Split(rest, sep);
      forall k | 0 <= k < |parts| - 1
        ensures IndexOf(parts[k] + sep, sep) == |parts[k]|
      {
        if k > 0 {
          assert parts[k] == Split(rest, sep)[k - 1];
        }
      }
    }
  }

  /** Joining the pieces of `s.split(sep)` with `sep` gives back `s`. */
  lemma {:induction false} SplitJoin(s: string, sep: string)
    requires |sep| > 0
    ensures Join(Split(s, sep), sep) == s
  {
    SplitIsSplit(s, sep);
  }

  /** Cutting `s` right after its first `sep` does not move that first occurrence. */
  lemma {:induction false} IndexOfPrefix(s: string, sep: string)
    requires IndexOf(s, sep) >= 0
    ensures IndexOf(s[..IndexOf(s, sep)] + sep, sep) == IndexOf(s, sep)
  {
    var i := IndexOf(s, sep);
    var t := s[..i] + sep;
    assert t == s[..i + |sep|];
    assert OccursAt(t, sep, i);
    forall j | 0 <= j < i
      ensures !OccursAt(t, sep, j)
    {
      if OccursAt(t, sep, j) {
        assert t[j..j + |sep|] == s[j..j + |sep|];
        assert OccursAt(s, sep, j);
      }
    }
  }

  /** Appending text after the first `sep` of `prefix + sep` does not move it. */
  lemma {:induction false} IndexOfExtended(head: string, sep: string, tail: string)
    requires IndexOf(head + sep, sep) == |head|
    ensures IndexOf(head + sep + tail, sep) == |head|
  {
    var s := head + sep + tail;
    var n := |head|;
    assert s[n..n + |sep|] == sep;
    assert OccursAt(s, sep, n);
    forall j | 0 <= j < n
      ensures !OccursAt(s, sep, j)
    {
      if OccursAt(s, sep, j) {
        assert (head + sep)[j..j + |sep|] == s[j..j + |sep|];
        assert OccursAt(head + sep, sep, j);
      }
    }
  }

  /** The pieces after the first one are a split of what follows the first `sep`. */
  lemma {:induction false} IsSplitTail(s: string, sep: string, parts: seq<string>)
    requires IsSplit(s, sep, parts) && |parts| >= 2
    ensures IsSplit(Join(parts[1..], sep), sep, parts[1..])
  {
    var rest := parts[1..];
    forall k | 0 <= k < |rest| - 1
      ensures IndexOf(rest[k] + sep, sep) == |rest[k]|
    {
      assert rest[k] == parts[k + 1];
    }
  }

  /** `s.split(sep)` is the only list of pieces that satisfies IsSplit. */
  lemma {:induction false} SplitUnique(s: string, sep: string, parts: seq<string>)
    requires |sep| > 0
    requires IsSplit(s, sep, parts)
    ensures parts == Split(s, sep)
    decreases |parts|
  {
    if |parts| == 1 {
      assert s == parts[0];
    } else {
      var head, tail := parts[0], Join(parts[1..], sep);
      assert s == head + sep + tail;
      IndexOfExtended(head, sep, tail);
      assert s[..|head|] == head;
      assert s[|head| + |sep|..] == tail;
      IsSplitTail(s, sep, parts);
      SplitUnique(tail, sep, parts[1..]);
      IndexOfExtended(head, sep, tail);
    }
  }

  /** A one-character separator occurs exactly where that character stands. */
  lemma {:induction false} OccursAtChar(s: string, c: char, j: int)
    ensures OccursAt(s, [c], j) <==> 0 <= j < |s| && s[j] == c
  {
    if 0 <= j < |s| {
      assert s[j..j + 1] == [s[j]];
    }
  }

  /** `s.indexOf(c)` for one character: -1 exactly when `c` is absent, otherwise
      the position of its first occurrence. */
  lemma {:induction false} IndexOfChar(s: string, c: char)
    ensures IndexOf(s, [c]) >= 0 <==> c in s
    ensures IndexOf(s, [c]) >= 0 ==> IndexOf(s, [c]) < |s| && s[IndexOf(s, [c])] == c && c !in s[..IndexOf(s, [c])]
  {
    forall j | 0 <= j < |s|
      ensures OccursAt(s, [c], j) <==> s[j] == c
    {
      OccursAtChar(s, c, j);
    }
    OccursAtChar(s, c, IndexOf(s, [c]));
  }

  /** `s.lastIndexOf(c)` for one character: -1 exactly when `c` is absent,
      otherwise the position of its last occurrence. */
  lemma {:induction false} LastIndexOfChar(s: string, c: char)
    ensures LastIndexOf(s, [c]) >= 0 <==> c in s
    ensures LastIndexOf(s, [c]) >= 0 ==> LastIndexOf(s, [c]) < |s| && s[LastIndexOf(s, [c])] == c && c !in s[LastIndexOf(s, [c]) + 1..]
  {
    var i := LastIndexOf(s, [c]);
    if i >= 0 {
      OccursAtChar(s, c, i);
      var after := s[i + 1..];
      forall p | 0 <= p < |after|
        ensures after[p] != c
      {
        OccursAtChar(s, c, i + 1 + p);
      }
    } else {
      forall p | 0 <= p < |s|
        ensures s[p] != c
      {
        OccursAtChar(s, c, p);
      }
    }
  }

  /** The only position of `c` with no `c` after it is `s.lastIndexOf(c)`. */
  lemma {:induction false} LastIndexOfCharAt(s: string, c: char, j: int)
    requires 0 <= j < |s| && s[j] == c && c !in s[j + 1..]
    ensures LastIndexOf(s, [c]) == j
  {
    var i := LastIndexOf(s, [c]);
    OccursAtChar(s, c, j);
    if i > j {
      OccursAtChar(s, c, i);
    }
  }

  /** Splitting at a single character gives one more piece than there are
      occurrences of it. */
  lemma {:induction false} SplitCharCount(s: string, c: char)
    ensures |Split(s, [c])| == multiset(s)[c] + 1
    decreases |s|
  {
    IndexOfChar(s, c);
    var i := IndexOf(s, [c]);
    if i >= 0 {
      var t := s[i + 1..];
      SplitCharCount(t, c);
      assert Split(s, [c]) == [s[..i]] + Split(t, [c]);
      assert s == s[..i] + [c] + t;
      assert multiset(s) == multiset(s[..i]) + multiset{c} + multiset(t);
      assert multiset(s[..i])[c] == 0;
    }
  }

  /** No piece of a split at a single character holds that character. */
  lemma {:induction false} SplitCharPieces(s: string, c: char)
    ensures forall k :: 0 <= k < |Split(s, [c])| ==> c !in Split(s, [c])[k]
    decreases |s|
  {
    IndexOfChar(s, c);
    var i := IndexOf(s, [c]);
    if i >= 0 {
      SplitCharPieces(s[i + 1..], c);
    }
  }

  /** Joining at least two pieces: all but the last joined, the separator,
      then the last piece. */
  lemma {:induction false} JoinLast(parts: seq<string>, sep: string)
    requires |parts| >= 2
    ensures Join(parts, sep) == Join(parts[..|parts| - 1], sep) + sep + parts[|parts| - 1]
    decreases |parts|
  {
    var n := |parts|;
    if n > 2 {
      var tail := parts[1..];
      JoinLast(tail, sep);
      assert parts[..n - 1][1..] == tail[..n - 2];
      assert Join(parts[..n - 1], sep) == parts[0] + sep + Join(tail[..n - 2], sep);
    }
  }

  /** With no `c` in `s`, `s.lastIndexOf(c)` is -1, so what follows it is all of `s`. */
  lemma {:induction false} LastIndexOfAbsent(s: string, c: char)
    requires c !in s
    ensures LastIndexOf(s, [c]) == -1
    ensures s[LastIndexOf(s, [c]) + 1..] == s
  {
    LastIndexOfChar(s, c);
  }

  /** In `s == front + c + last` with no `c` in `last`, the last `c` is the one
      right after `front`, so what follows it is `last`. */
  lemma {:induction false} LastIndexOfBefore(s: string, front: string, c: char, last: string)
    requires s == front + [c] + last && c !in last
    ensures LastIndexOf(s, [c]) == |front|
    ensures s[LastIndexOf(s, [c]) + 1..] == last
  {
    assert s[|front|] == c && s[|front| + 1..] == last;
    LastIndexOfCharAt(s, c, |front|);
  }

  /** Pieces free of `c` that join with `c` into `s`: the last one is what
      follows the last `c` of `s`. */
  lemma {:induction false} JoinedLast(parts: seq<string>, c: char, s: string)
    requires |parts| >= 1 && Join(parts, [c]) == s
    requires forall k :: 0 <= k < |parts| ==> c !in parts[k]
    ensures parts[|parts| - 1] == s[LastIndexOf(s, [c]) + 1..]
  {
    var n := |parts|;
    if n == 1 {
      assert s == parts[0];
      LastIndexOfAbsent(s, c);
    } else {
      JoinLast(parts, [c]);
      LastIndexOfBefore(s, Join(parts[..n - 1], [c]), c, parts[n - 1]);
    }
  }

  /** The last piece of a split at a single character is what follows its last
      occurrence, and the whole string when it does not occur. */
  lemma {:induction false} SplitCharLast(s: string, c: char)
    ensures Split(s, [c])[|Split(s, [c])| - 1] == s[LastIndexOf(s, [c]) + 1..]
  {
    SplitJoin(s, [c]);
    SplitCharPieces(s, c);
    JoinedLast(Split(s, [c]), c, s);
  }

  /** `toLowerCase` of one character, for the ASCII letters. */
  function LowerChar(c: char): char
  {
    if 'A' <= c <= 'Z' then (c as int + 32) as char else c
  }

  /** `s` holds no upper-case (ASCII) letter. */
  predicate IsLower(s: string)
  {
    forall i :: 0 <= i < |s| ==> !('A' <= s[i] <= 'Z')
  }

  /** `s.toLowerCase()`: same length, no upper-case letter left, and every
      character that is not a letter unchanged. */
  function ToLower(s: string): (r: string)
    ensures |r| == |s| && IsLower(r)
    ensures forall i :: 0 <= i < |s| ==> r[i] == LowerChar(s[i])
    ensures forall i :: 0 <= i < |s| && !('A' <= s[i] <= 'Z') ==> r[i] == s[i]
  {
    seq(|s|, i requires 0 <= i < |s| => LowerChar(s[i]))
  }

  /** Lower-casing a string that is already lower case changes nothing; in
      particular lower-casing twice is lower-casing once. */
  lemma {:induction false} ToLowerOfLower(s: string)
    requires IsLower(s)
    ensures ToLower(s) == s
  {
  }

  /** A character that is not a letter occurs in the lower-cased string exactly
      when it occurs in the original. */
  lemma {:induction false} ToLowerKeeps(s: string, c: char)
    requires !('A' <= c <= 'Z') && !('a' <= c <= 'z')
    ensures c in ToLower(s) <==> c in s
  {
    var r := ToLower(s);
    if c in r {
      var i :| 0 <= i < |r| && r[i] == c;
      assert s[i] == c;
    }
    if c in s {
      var i :| 0 <= i < |s| && s[i] == c;
      assert r[i] == c;
    }
  }
}
