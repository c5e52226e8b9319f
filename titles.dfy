/** The title `scrapeAndStoreArticles` (backend/controllers.ts) gives an article: its link split
    on `/`, the empty pieces dropped, the last piece kept, every `-` turned into a space and
    every word-initial character upper-cased; `"Untitled"` when no piece is left. */
module Titles {
  import opened Common
  import opened Text

  /** `s.split(sep)` for a one-character separator: the pieces between separators, empty ones
      included, so `k` separators give `k + 1` pieces. */
  function Split(s: string, sep: char): (r: seq<string>)
    ensures |r| >= 1
    ensures forall i :: 0 <= i < |r| ==> sep !in r[i]
    decreases |s|
  {
    match FindChar(s, sep, 0)
    case None => [s]
    case Some(j) => [s[..j]] + Split(s[j + 1..], sep)
  }

  /** `parts.join(sep)`. */
  function Join(parts: seq<string>, sep: char): string
    requires |parts| >= 1
  {
    if |parts| == 1 then parts[0] else parts[0] + [sep] + Join(parts[1..], sep)
  }

  /** Joining the pieces gives back the string. */
  lemma {:induction false} SplitJoin(s: string, sep: char)
    ensures Join(Split(s, sep), sep) == s
    decreases |s|
  {
    match FindChar(s, sep, 0)
    case None =>
    case Some(j) =>
      var rest := s[j + 1..];
      var parts := [s[..j]] + Split(rest, sep);
      assert Split(s, sep) == parts;
      assert parts[0] == s[..j] && parts[1..] == Split(rest, sep);
      assert Join(parts, sep) == s[..j] + [sep] + Join(Split(rest, sep), sep);
      SplitJoin(rest, sep);
      assert s == s[..j] + [sep] + rest;
  }

  /** Splitting joined pieces that hold no separator gives back the pieces. */
  lemma {:induction false} JoinSplit(parts: seq<string>, sep: char)
    requires |parts| >= 1 && forall i :: 0 <= i < |parts| ==> sep !in parts[i]
    ensures Split(Join(parts, sep), sep) == parts
    decreases |parts|
  {
    var s := Join(parts, sep);
    var p := parts[0];
    if |parts| == 1 {
      assert FindChar(s, sep, 0).None?;
    } else {
      var rest := Join(parts[1..], sep);
      assert s == p + [sep] + rest;
      assert s[|p|] == sep && forall k :: 0 <= k < |p| ==> s[k] == p[k];
      assert FindChar(s, sep, 0) == Some(|p|);
      assert s[..|p|] == p && s[|p| + 1..] == rest;
      JoinSplit(parts[1..], sep);
    }
  }

  /** `parts.filter(Boolean)`: the non-empty pieces, in order. */
  function NonEmpty(parts: seq<string>): (r: seq<string>)
    ensures |r| <= |parts|
  {
    if parts == [] then []
    else (if parts[0] != "" then [parts[0]] else []) + NonEmpty(parts[1..])
  }

  /** The pieces kept are exactly the non-empty ones. */
  lemma {:induction false} NonEmptyKept(parts: seq<string>)
    ensures forall x :: x in NonEmpty(parts) <==> x in parts && x != ""
  {
    if parts != [] {
      NonEmptyKept(parts[1..]);
      assert parts == [parts[0]] + parts[1..];
    }
  }

  /** Unfolding `NonEmpty` at a first piece. */
  lemma NonEmptyCons(head: string, parts: seq<string>)
    ensures NonEmpty([head] + parts) == (if head != "" then [head] else []) + NonEmpty(parts)
  {
    assert ([head] + parts)[1..] == parts;
  }

  /** Unfolding `Split` at the first separator. */
  lemma SplitAt(s: string, sep: char, j: nat)
    requires FindChar(s, sep, 0) == Some(j)
    ensures j < |s| && Split(s, sep) == [s[..j]] + Split(s[j + 1..], sep)
  {
  }

  /** `\w`: an ASCII letter, digit or underscore. */
  predicate IsWordChar(c: char) {
    'a' <= c <= 'z' || 'A' <= c <= 'Z' || '0' <= c <= '9' || c == '_'
  }

  /** `toUpperCase` of a word character: only the lower-case letters change. */
  function Upper(c: char): (d: char)
    ensures IsWordChar(c) ==> IsWordChar(d)
    ensures !('a' <= c <= 'z') ==> d == c
    ensures 'a' <= c <= 'z' ==> 'A' <= d <= 'Z' && Lower(d) == c
  {
    if 'a' <= c <= 'z' then (c as int - 32) as char else c
  }

  /** `s.replace(/-/g, " ")`. */
  function Dashes(s: string): (r: string)
    ensures |r| == |s|
    ensures forall i :: 0 <= i < |s| ==> r[i] == if s[i] == '-' then ' ' else s[i]
  {
    if s == [] then [] else [if s[0] == '-' then ' ' else s[0]] + Dashes(s[1..])
  }

  /** `s[i]` begins a word: a word character at the start or after a non-word character. */
  predicate WordStart(s: string, i: int)
    requires 0 <= i < |s|
  {
    IsWordChar(s[i]) && (i == 0 || !IsWordChar(s[i - 1]))
  }

  /** `s.replace(/\b\w/g, l => l.toUpperCase())`, scanning `s` with `afterWord` telling
      whether the character before `s` was a word character. */
  function Capitalize(s: string, afterWord: bool): (r: string)
    ensures |r| == |s|
    ensures s != [] ==> r[0] == if IsWordChar(s[0]) && !afterWord then Upper(s[0]) else s[0]
    ensures forall i :: 0 < i < |s| ==> r[i] == if WordStart(s, i) then Upper(s[i]) else s[i]
    decreases |s|
  {
    if s == [] then []
    else
      [if IsWordChar(s[0]) && !afterWord then Upper(s[0]) else s[0]] +
      Capitalize(s[1..], IsWordChar(s[0]))
  }

  /** The non-empty pieces of a link split on `/`. */
  function Segments(link: string): seq<string> {
    NonEmpty(Split(link, '/'))
  }

  /** The last non-empty piece of a link. */
  function LastSegment(link: string): string
    requires Segments(link) != []
  {
    Segments(link)[|Segments(link)| - 1]
  }

  /** The title derived from a link, `"Untitled"` when it has no non-empty piece. */
  function DeriveTitle(link: string): string {
    if Segments(link) == [] then "Untitled"
    else Capitalize(Dashes(LastSegment(link)), false)
  }

  /** A link has no non-empty piece exactly when it is made of nothing but slashes. */
  lemma {:induction false} NoSegmentIffSlashes(link: string)
    ensures Segments(link) == [] <==> forall i :: 0 <= i < |link| ==> link[i] == '/'
    decreases |link|
  {
    match FindChar(link, '/', 0)
    case None =>
      if link != [] {
        assert link[0] != '/';
      }
    case Some(j) =>
      var rest := link[j + 1..];
      NoSegmentIffSlashes(rest);
      assert forall i :: j + 1 <= i < |link| ==> link[i] == rest[i - j - 1];
      if j > 0 {
        assert link[0] != '/';
      }
  }

  /** `seg` sits in `link` at `k`, right after a slash (or at the start), and only slashes
      follow it. */
  predicate EndsWith(link: string, seg: string, k: nat) {
    k + |seg| <= |link| && link[k..k + |seg|] == seg && (k == 0 || link[k - 1] == '/') &&
    forall m :: k + |seg| <= m < |link| ==> link[m] == '/'
  }

  /** Where `seg` ends the text after the first slash, it ends the whole link. */
  lemma EndsWithAfterSlash(link: string, j: nat, seg: string, k: nat)
    requires j < |link| && link[j] == '/' && EndsWith(link[j + 1..], seg, k)
    ensures EndsWith(link, seg, j + 1 + k)
  {
    var rest := link[j + 1..];
    assert link[j + 1 + k..j + 1 + k + |seg|] == rest[k..k + |seg|];
    assert forall m :: j + 1 <= m < |link| ==> link[m] == rest[m - j - 1];
  }

  /** A first piece followed by nothing but slashes ends the link. */
  lemma EndsWithHead(link: string, j: nat, rest: string)
    requires j < |link| && link[j] == '/' && rest == link[j + 1..]
    requires forall i :: 0 <= i < |rest| ==> rest[i] == '/'
    ensures EndsWith(link, link[..j], 0)
  {
    assert forall m :: j + 1 <= m < |link| ==> link[m] == rest[m - j - 1];
  }

  /** The last non-empty piece of a link is non-empty, holds no slash, and ends the link at
      the returned index. */
  lemma LastSegmentAt(link: string) returns (k: nat)
    requires Segments(link) != []
    ensures var seg := LastSegment(link); seg != "" && '/' !in seg && EndsWith(link, seg, k)
  {
    NonEmptyKept(Split(link, '/'));
    assert LastSegment(link) in Segments(link);
    k := LastSegmentEnds(link);
  }

  /** The non-empty pieces of a link with no slash: the link itself, when it is not empty. */
  lemma SegmentsNoSlash(link: string)
    requires FindChar(link, '/', 0).None?
    ensures Segments(link) == if link != "" then [link] else []
  {
    assert Split(link, '/') == [link];
    NonEmptyCons(link, []);
  }

  /** The non-empty pieces of a link: the first piece, when it is not empty, then the
      non-empty pieces after the first slash. */
  lemma SegmentsAfterSlash(link: string, j: nat)
    requires FindChar(link, '/', 0) == Some(j)
    ensures j < |link| && link[j] == '/'
    ensures Segments(link) == (if link[..j] != "" then [link[..j]] else []) + Segments(link[j + 1..])
  {
    SplitAt(link, '/', j);
    NonEmptyCons(link[..j], Split(link[j + 1..], '/'));
  }

  /** With no slash in the link, its only piece ends it. */
  lemma LastNoSlash(link: string)
    requires FindChar(link, '/', 0).None? && Segments(link) != []
    ensures EndsWith(link, LastSegment(link), 0)
  {
    SegmentsNoSlash(link);
    assert link[0..|link|] == link;
  }

  /** The last non-empty piece after the first slash is the last one of the whole link. */
  lemma LastAfterSlash(link: string, j: nat, k: nat)
    requires FindChar(link, '/', 0) == Some(j)
    requires Segments(link[j + 1..]) != [] && EndsWith(link[j + 1..], LastSegment(link[j + 1..]), k)
    ensures Segments(link) != [] && EndsWith(link, LastSegment(link), j + 1 + k)
  {
    SegmentsAfterSlash(link, j);
    assert LastSegment(link) == LastSegment(link[j + 1..]);
    EndsWithAfterSlash(link, j, LastSegment(link), k);
  }

  /** With no non-empty piece after the first slash, the first piece is the last one. */
  lemma LastIsHead(link: string, j: nat)
    requires FindChar(link, '/', 0) == Some(j)
    requires Segments(link) != [] && Segments(link[j + 1..]) == []
    ensures EndsWith(link, LastSegment(link), 0)
  {
    SegmentsAfterSlash(link, j);
    NoSegmentIffSlashes(link[j + 1..]);
    EndsWithHead(link, j, link[j + 1..]);
  }

  /** The last non-empty piece of a link ends it, at the returned index. */
  lemma {:induction false} LastSegmentEnds(link: string) returns (k: nat)
    requires Segments(link) != []
    ensures EndsWith(link, LastSegment(link), k)
    decreases |link|
  {
    match FindChar(link, '/', 0)
    case None =>
      LastNoSlash(link);
      k := 0;
    case Some(j) =>
      if Segments(link[j + 1..]) != [] {
        var k' := LastSegmentEnds(link[j + 1..]);
        LastAfterSlash(link, j, k');
        k := j + 1 + k';
      } else {
        LastIsHead(link, j);
        k := 0;
      }
  }

  /** The title made from a piece: one character per character of the piece, a dash
      becoming a space, a word-initial character upper-cased, any other kept; so no dash. */
  lemma SegmentTitle(seg: string)
    ensures var t := Capitalize(Dashes(seg), false);
            |t| == |seg| && '-' !in t &&
            forall i :: 0 <= i < |seg| ==>
              t[i] == if seg[i] == '-' then ' ' else if WordStart(seg, i) then Upper(seg[i]) else seg[i]
  {
    var d := Dashes(seg);
    var t := Capitalize(d, false);
    forall i | 0 <= i < |seg|
      ensures t[i] == if seg[i] == '-' then ' ' else if WordStart(seg, i) then Upper(seg[i]) else seg[i]
    {
      if i > 0 {
        assert IsWordChar(d[i - 1]) == IsWordChar(seg[i - 1]);
      }
    }
    forall i | 0 <= i < |t| ensures t[i] != '-' {
      assert IsWordChar(d[i]) ==> IsWordChar(t[i]);
    }
  }

  /** A derived title is never empty, holds no dash, and, unless it is `"Untitled"`, has one
      character per character of the last non-empty piece: a dash becomes a space, a
      word-initial character is upper-cased, any other is kept. */
  lemma TitleChars(link: string)
    ensures var t := DeriveTitle(link); t != "" && '-' !in t
    ensures Segments(link) != [] ==>
              var seg := LastSegment(link);
              var t := DeriveTitle(link);
              |t| == |seg| &&
              forall i :: 0 <= i < |seg| ==>
                t[i] == if seg[i] == '-' then ' ' else if WordStart(seg, i) then Upper(seg[i]) else seg[i]
  {
    if Segments(link) == [] {
      assert DeriveTitle(link) == "Untitled";
    } else {
      var seg := LastSegment(link);
      NonEmptyKept(Split(link, '/'));
      assert seg in Segments(link);
      SegmentTitle(seg);
      assert DeriveTitle(link) == Capitalize(Dashes(seg), false);
    }
  }
}
