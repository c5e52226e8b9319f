/** `cleanHtml` in backend/controllers.ts: six global regular-expression replacements applied
    in a fixed order, then `trim`. A global replacement scans left to right; where its pattern
    matches, the match is replaced and the scan resumes after it, otherwise one character is
    kept. `MatchLength` gives, for each pattern, the length of its match at the start of a
    string (0 when there is none), worked out from the pattern's quantifiers. */
module Html {
  import opened Common
  import opened Text

  /** The patterns of the chain, in the order they are applied. */
  datatype Pattern =
    | ScriptBlock   // `<script`, anything up to a `>`, anything up to `</script>`; any case
    | StyleBlock    // the same for `style`
    | ParagraphEnd  // `</p>`, any case
    | LineBreak     // `<br`, optional spaces, optional `/`, `>`; any case
    | AnyTag        // `<`, one or more characters other than `>`, `>`
    | NewlineRun    // three or more newlines

  /** Number of newlines at the start of `s`. */
  function LeadingNewlines(s: string): (n: nat)
    ensures n <= |s|
    ensures forall i :: 0 <= i < n ==> s[i] == '\n'
    ensures n < |s| ==> s[n] != '\n'
  {
    if s != [] && s[0] == '\n' then 1 + LeadingNewlines(s[1..]) else 0
  }

  /** A script or style block at the start of `s`. Both quantifiers are lazy, so the block
      ends at the first `>` after the opening name and then at the first closing tag after
      that `>`; if either is missing there is no block here (a later `>` would leave fewer
      characters in which to find a closing tag). */
  function BlockLength(s: string, name: string): (n: nat)
    ensures n <= |s|
  {
    if !StartsWithCI(s, "<" + name) then 0
    else match FindChar(s, '>', |name| + 1)
      case None => 0
      case Some(j) =>
        match FindCI(s, "</" + name + ">", j + 1)
        case None => 0
        case Some(k) => k + |name| + 3
  }

  /** A line break tag at the start of `s`; spaces, `/` and `>` are disjoint, so the greedy
      space run never has to give characters back. */
  function BreakLength(s: string): (n: nat)
    ensures n <= |s|
  {
    if !StartsWithCI(s, "<br") then 0
    else
      var j := 3 + LeadingSpaces(s[3..]);
      if j < |s| && s[j] == '>' then j + 1
      else if j + 1 < |s| && s[j] == '/' && s[j + 1] == '>' then j + 2
      else 0
  }

  /** Any tag at the start of `s`: the greedy run of non-`>` characters stops at the first
      `>`, which must not be the character right after `<`. */
  function TagLength(s: string): (n: nat)
    ensures n <= |s|
  {
    if s == [] || s[0] != '<' then 0
    else match FindChar(s, '>', 1)
      case None => 0
      case Some(j) => if j >= 2 then j + 1 else 0
  }

  /** Length of the match of `p` at the start of `s`, 0 when `p` does not match there. */
  function MatchLength(p: Pattern, s: string): (n: nat)
    ensures n <= |s|
  {
    match p
    case ScriptBlock => BlockLength(s, "script")
    case StyleBlock => BlockLength(s, "style")
    case ParagraphEnd => if StartsWithCI(s, "</p>") then 4 else 0
    case LineBreak => BreakLength(s)
    case AnyTag => TagLength(s)
    case NewlineRun => var k := LeadingNewlines(s); if k >= 3 then k else 0
  }

  /** `s.replace(p, rep)` for a global pattern `p` whose matches are never empty. */
  function ReplaceAll(s: string, p: Pattern, rep: string): string
    decreases |s|
  {
    if s == [] then []
    else
      var n := MatchLength(p, s);
      if n > 0 then rep + ReplaceAll(s[n..], p, rep)
      else [s[0]] + ReplaceAll(s[1..], p, rep)
  }

  /** `s[i]` opens and `s[j]` closes a tag: `<`, at least one non-`>` character, `>`. */
  predicate IsTag(s: string, i: int, j: int) {
    0 <= i && i + 1 < j < |s| && s[i] == '<' && s[j] == '>' &&
    forall k :: i < k < j ==> s[k] != '>'
  }

  /** `s` contains no tag. */
  predicate TagFree(s: string) {
    forall i, j :: 0 <= i < j < |s| ==> !IsTag(s, i, j)
  }

  /** `s` never has three newlines in a row. */
  predicate NoTripleNewline(s: string) {
    forall i :: 0 <= i < |s| - 2 ==> !(s[i] == '\n' && s[i + 1] == '\n' && s[i + 2] == '\n')
  }

  /** The first four replacements of `cleanHtml`: script and style blocks removed, paragraph
      ends and line breaks turned into newlines. */
  function StripMarkup(html: string): string {
    var noScripts := ReplaceAll(html, ScriptBlock, "");
    var noStyles := ReplaceAll(noScripts, StyleBlock, "");
    var paragraphs := ReplaceAll(noStyles, ParagraphEnd, "\n\n");
    ReplaceAll(paragraphs, LineBreak, "\n")
  }

  /** The fifth replacement: every remaining tag removed, which leaves no tag. */
  function StripTags(s: string): (r: string)
    ensures TagFree(r)
  {
    StripTagsTagFree(s);
    ReplaceAll(s, AnyTag, "")
  }

  /** The sixth replacement: every run of three or more newlines becomes two, which leaves no
      such run and creates no tag. */
  function CollapseNewlines(s: string): (r: string)
    ensures NoTripleNewline(r)
    ensures TagFree(s) ==> TagFree(r)
  {
    CollapseNoTriple(s);
    var r := ReplaceAll(s, NewlineRun, "\n\n");
    if TagFree(s) then CollapseTagFree(s); r else r
  }

  /** `cleanHtml`. Its result contains no tag, never three newlines in a row, and no space
      at either end. */
  function CleanHtml(html: string): (r: string)
    ensures TagFree(r)
    ensures NoTripleNewline(r)
    ensures Trimmed(r)
  {
    var collapsed := CollapseNewlines(StripTags(StripMarkup(html)));
    TrimClean(collapsed);
    Trim(collapsed)
  }

  /** Trimming text with no tag and no three newlines in a row leaves neither. */
  lemma TrimClean(s: string)
    requires TagFree(s) && NoTripleNewline(s)
    ensures TagFree(Trim(s)) && NoTripleNewline(Trim(s))
  {
    var a := LeadingSpaces(s);
    var r := Trim(s);
    assert a + |r| <= |s| && r == s[a..a + |r|];
    TagFreeSlice(s, a, a + |r|);
    NoTripleSlice(s, a, a + |r|);
  }

  // ---------------------------------------------------------------------------------------
  // Facts about a replacement's output

  /** Every character of a replacement's output comes from its input or its replacement. */
  lemma ReplaceAllChars(s: string, p: Pattern, rep: string, c: char)
    requires c in ReplaceAll(s, p, rep)
    ensures c in s || c in rep
  {
    if c !in s && c !in rep {
      ReplaceAllNoChar(s, p, rep, c);
    }
  }

  /** A character in neither the input nor the replacement is not in the output. */
  lemma {:induction false} ReplaceAllNoChar(s: string, p: Pattern, rep: string, c: char)
    requires c !in s && c !in rep
    ensures c !in ReplaceAll(s, p, rep)
    decreases |s|
  {
    if s != [] {
      var n := MatchLength(p, s);
      var k := if n > 0 then n else 1;
      var front := if n > 0 then rep else [s[0]];
      assert ReplaceAll(s, p, rep) == front + ReplaceAll(s[k..], p, rep);
      assert forall i :: 0 <= i < |s| - k ==> s[k..][i] == s[k + i];
      ReplaceAllNoChar(s[k..], p, rep, c);
    }
  }

  /** A character where the pattern does not match is copied to the front of the output. */
  lemma KeepsHead(s: string, p: Pattern, rep: string)
    requires s != [] && MatchLength(p, s) == 0
    ensures ReplaceAll(s, p, rep) != [] && ReplaceAll(s, p, rep)[0] == s[0]
  {
  }

  // ---------------------------------------------------------------------------------------
  // Tag freedom

  lemma TagFreeSlice(s: string, a: int, b: int)
    requires 0 <= a <= b <= |s| && TagFree(s)
    ensures TagFree(s[a..b])
    ensures b == |s| ==> TagFree(s[a..])
  {
    var t := s[a..b];
    forall i, j | 0 <= i < j < |t| ensures !IsTag(t, i, j) {
      assert forall k :: i < k < j ==> t[k] == s[a + k];
      assert IsTag(t, i, j) ==> IsTag(s, a + i, a + j);
    }
    assert b == |s| ==> t == s[a..];
  }

  /** Putting `c` in front of a tag-free `t` makes no tag, unless `c` is `<` followed by a
      non-`>` character and a `>` somewhere later. */
  lemma TagFreeCons(c: char, t: string)
    requires TagFree(t)
    requires c != '<' || '>' !in t || (t != [] && t[0] == '>')
    ensures TagFree([c] + t)
  {
    var s := [c] + t;
    forall i, j | 0 <= i < j < |s| ensures !IsTag(s, i, j) {
      if i > 0 {
        assert forall k :: i - 1 < k < j - 1 ==> t[k] == s[k + 1];
        assert IsTag(s, i, j) ==> IsTag(t, i - 1, j - 1);
      } else {
        assert s[j] == t[j - 1];
        assert j >= 2 ==> s[1] == t[0];
      }
    }
  }

  lemma TagFreeAppend(a: string, t: string)
    requires TagFree(t) && '<' !in a
    ensures TagFree(a + t)
    decreases |a|
  {
    if a == [] {
      assert a + t == t;
    } else {
      TagFreeAppend(a[1..], t);
      assert a + t == [a[0]] + (a[1..] + t);
      TagFreeCons(a[0], a[1..] + t);
    }
  }

  /** In a tag-free string, a `<` not followed by `>` has no `>` anywhere after it. */
  lemma TagFreeOpen(s: string)
    requires TagFree(s) && |s| >= 2 && s[0] == '<' && s[1] != '>'
    ensures '>' !in s[1..]
  {
    assert forall j :: 1 < j < |s| && s[j] == '>' ==> !IsTag(s, 0, j);
    match FindChar(s, '>', 1) {
      case None =>
      case Some(j) => assert false;
    }
  }

  /** Removing every tag leaves no tag behind. */
  lemma {:induction false} StripTagsTagFree(s: string)
    ensures TagFree(ReplaceAll(s, AnyTag, ""))
    decreases |s|
  {
    if s != [] {
      var n := MatchLength(AnyTag, s);
      if n > 0 {
        StripTagsTagFree(s[n..]);
        assert ReplaceAll(s, AnyTag, "") == ReplaceAll(s[n..], AnyTag, "");
      } else {
        var t := ReplaceAll(s[1..], AnyTag, "");
        StripTagsTagFree(s[1..]);
        if s[0] == '<' {
          match FindChar(s, '>', 1)
          case None =>
            if '>' in t {
              ReplaceAllChars(s[1..], AnyTag, "", '>');
            }
          case Some(j) =>
            assert j == 1;
            KeepsHead(s[1..], AnyTag, "");
        }
        TagFreeCons(s[0], t);
      }
    }
  }

  /** Collapsing newline runs creates no tag. */
  lemma {:induction false} CollapseTagFree(s: string)
    requires TagFree(s)
    ensures TagFree(ReplaceAll(s, NewlineRun, "\n\n"))
    decreases |s|
  {
    if s != [] {
      var n := MatchLength(NewlineRun, s);
      if n > 0 {
        TagFreeSlice(s, n, |s|);
        CollapseTagFree(s[n..]);
        TagFreeAppend("\n\n", ReplaceAll(s[n..], NewlineRun, "\n\n"));
      } else {
        var t := ReplaceAll(s[1..], NewlineRun, "\n\n");
        TagFreeSlice(s, 1, |s|);
        CollapseTagFree(s[1..]);
        if s[0] == '<' && |s| >= 2 {
          if s[1] == '>' {
            KeepsHead(s[1..], NewlineRun, "\n\n");
          } else {
            TagFreeOpen(s);
            if '>' in t {
              ReplaceAllChars(s[1..], NewlineRun, "\n\n", '>');
            }
          }
        }
        TagFreeCons(s[0], t);
      }
    }
  }

  // ---------------------------------------------------------------------------------------
  // Newline runs

  lemma NoTripleSlice(s: string, a: int, b: int)
    requires 0 <= a <= b <= |s| && NoTripleNewline(s)
    ensures NoTripleNewline(s[a..b])
    ensures b == |s| ==> NoTripleNewline(s[a..])
  {
    var t := s[a..b];
    forall i | 0 <= i < |t| - 2 ensures !(t[i] == '\n' && t[i + 1] == '\n' && t[i + 2] == '\n') {
      assert t[i] == s[a + i] && t[i + 1] == s[a + i + 1] && t[i + 2] == s[a + i + 2];
    }
    assert b == |s| ==> t == s[a..];
  }

  lemma NoTripleCons(c: char, t: string)
    requires NoTripleNewline(t)
    requires c != '\n' || LeadingNewlines(t) < 2
    ensures NoTripleNewline([c] + t)
  {
    var s := [c] + t;
    forall i | 0 <= i < |s| - 2 ensures !(s[i] == '\n' && s[i + 1] == '\n' && s[i + 2] == '\n') {
      if i > 0 {
        assert s[i] == t[i - 1] && s[i + 1] == t[i] && s[i + 2] == t[i + 1];
      }
    }
  }

  lemma LeadingNewlinesCons(c: char, t: string)
    ensures LeadingNewlines([c] + t) == if c == '\n' then 1 + LeadingNewlines(t) else 0
  {
    assert ([c] + t)[1..] == t;
  }

  /** After collapsing, no three newlines remain in a row, and the output starts with as many
      newlines as the input, but at most two. */
  lemma {:induction false} CollapseNoTriple(s: string)
    ensures NoTripleNewline(ReplaceAll(s, NewlineRun, "\n\n"))
    ensures LeadingNewlines(ReplaceAll(s, NewlineRun, "\n\n")) ==
            if LeadingNewlines(s) < 2 then LeadingNewlines(s) else 2
    decreases |s|
  {
    if s != [] {
      var n := MatchLength(NewlineRun, s);
      var r := ReplaceAll(s, NewlineRun, "\n\n");
      if n > 0 {
        var t := ReplaceAll(s[n..], NewlineRun, "\n\n");
        assert r == "\n\n" + t;
        CollapseNoTriple(s[n..]);
        assert LeadingNewlines(s[n..]) == 0 by {
          if n < |s| {
            assert s[n..][0] == s[n];
          }
        }
        LeadingNewlinesCons('\n', t);
        NoTripleCons('\n', t);
        LeadingNewlinesCons('\n', "\n" + t);
        NoTripleCons('\n', "\n" + t);
        assert "\n\n" + t == ['\n'] + (['\n'] + t);
      } else {
        var t := ReplaceAll(s[1..], NewlineRun, "\n\n");
        assert r == [s[0]] + t;
        CollapseNoTriple(s[1..]);
        assert s == [s[0]] + s[1..];
        LeadingNewlinesCons(s[0], s[1..]);
        LeadingNewlinesCons(s[0], t);
        NoTripleCons(s[0], t);
      }
    }
  }

  // ---------------------------------------------------------------------------------------
  // Script and style blocks

  /** A lower-case ASCII tag name. */
  predicate IsTagName(name: string) {
    |name| > 0 && forall i :: 0 <= i < |name| ==> 'a' <= name[i] <= 'z'
  }

  /** `body` holds no closing tag for `name`, in any case. */
  predicate NoCloser(body: string, name: string) {
    forall k :: 0 <= k <= |body| ==> !StartsWithCI(body[k..], "</" + name + ">")
  }

  lemma FindCharIs(s: string, c: char, from: nat, j: nat)
    requires from <= j < |s| && s[j] == c
    requires forall k :: from <= k < j ==> s[k] != c
    ensures FindChar(s, c, from) == Some(j)
  {
  }

  lemma FindCIIs(s: string, p: string, from: nat, j: nat)
    requires from <= j <= |s| && StartsWithCI(s[j..], p)
    requires forall k :: from <= k < j ==> !StartsWithCI(s[k..], p)
    ensures FindCI(s, p, from) == Some(j)
  {
  }

  /** A case-insensitive occurrence at the start of a prefix is one of the whole text. */
  lemma PrefixCI(s: string, t: string, p: string)
    requires |t| <= |s| && s[..|t|] == t && StartsWithCI(t, p)
    ensures StartsWithCI(s, p)
  {
    forall i | 0 <= i < |p| ensures Lower(s[i]) == p[i] {
      assert s[i] == s[..|t|][i];
    }
  }

  /** The match of a block at the start of `s`, given where its `>` and its closing tag are. */
  lemma BlockAt(s: string, name: string, j: nat, k: nat)
    requires StartsWithCI(s, "<" + name)
    requires |name| + 1 <= j < |s| && s[j] == '>'
    requires forall i :: |name| + 1 <= i < j ==> s[i] != '>'
    requires j + 1 <= k <= |s| && StartsWithCI(s[k..], "</" + name + ">")
    requires forall m :: j + 1 <= m < k ==> !StartsWithCI(s[m..], "</" + name + ">")
    ensures BlockLength(s, name) == k + |name| + 3
  {
    FindCharIs(s, '>', |name| + 1, j);
    FindCIIs(s, "</" + name + ">", j + 1, k);
  }

  /** A closing tag cannot start inside a body that holds none and is followed by `<`. */
  lemma NoCloserBefore(s: string, name: string, from: nat, k: nat)
    requires IsTagName(name) && from <= k < |s| && s[k] == '<'
    requires NoCloser(s[from..k], name)
    ensures forall m :: from <= m < k ==> !StartsWithCI(s[m..], "</" + name + ">")
  {
    var closer := "</" + name + ">";
    var body := s[from..k];
    forall m | from <= m < k ensures !StartsWithCI(s[m..], closer) {
      if m + |closer| <= k {
        var inner := body[m - from..];
        forall i | 0 <= i < |closer| && m + i < |s| ensures inner[i] == s[m..][i] {
        }
        assert StartsWithCI(s[m..], closer) ==> StartsWithCI(inner, closer);
      } else {
        var d := k - m;
        assert s[m..][d] == '<';
        assert 0 < d < |closer| && closer[d] != '<';
      }
    }
  }

  /** The text of a block: opening tag name (in any case) with its attributes, `>`, body,
      closing tag (in any case). */
  function Block(opening: string, attrs: string, body: string, closing: string): string {
    opening + attrs + ">" + body + closing
  }

  /** A spelling of the opening `<name` and of the closing `</name>`, letters in any case. */
  predicate TagSpelling(name: string, opening: string, closing: string) {
    |opening| == |name| + 1 && StartsWithCI(opening, "<" + name) &&
    |closing| == |name| + 3 && StartsWithCI(closing, "</" + name + ">")
  }

  /** What the lazy `[\s\S]*?>` leaves of an opening tag's attributes: the text after their
      first `>`, then the tag's own `>`; nothing when the attributes hold no `>`. */
  function AttrsTail(attrs: string): string {
    match FindChar(attrs + ">", '>', 0)
    case None => ""
    case Some(m) => (attrs + ">")[m + 1..]
  }

  /** Where the first `>` after an opening tag name falls, and what follows it up to the
      body's end. */
  lemma OpeningEnds(name: string, opening: string, attrs: string, body: string, tail: string) returns (j: nat)
    requires |opening| == |name| + 1 && StartsWithCI(opening, "<" + name)
    ensures var s := opening + (attrs + ">") + body + tail;
            StartsWithCI(s, "<" + name) && |name| + 1 <= j <= |opening| + |attrs| && s[j] == '>' &&
            (forall i :: |name| + 1 <= i < j ==> s[i] != '>') &&
            s[j + 1..|opening| + |attrs| + 1 + |body|] == AttrsTail(attrs) + body
  {
    var head := attrs + ">";
    var s := opening + head + body + tail;
    assert head[|attrs|] == '>';
    var m := FindChar(head, '>', 0).value;
    j := |opening| + m;
    assert s[..|opening|] == opening;
    PrefixCI(s, opening, "<" + name);
    forall i | |name| + 1 <= i < j ensures s[i] != '>' {
      assert s[i] == head[i - |opening|];
    }
    assert s[j] == head[m];
    assert s[j + 1..|opening| + |head| + |body|] == head[m + 1..] + body;
  }

  /** A block is matched exactly, contents and all, whatever the case of its tag names,
      provided no closing tag starts between the first `>` and its own closing tag. */
  lemma BlockMatched(name: string, opening: string, attrs: string, body: string, closing: string, rest: string)
    requires IsTagName(name) && TagSpelling(name, opening, closing)
    requires NoCloser(AttrsTail(attrs) + body, name)
    ensures BlockLength(Block(opening, attrs, body, closing) + rest, name) ==
            |Block(opening, attrs, body, closing)|
  {
    var closer := "</" + name + ">";
    var s := opening + (attrs + ">") + body + (closing + rest);
    assert s == Block(opening, attrs, body, closing) + rest;
    var j := OpeningEnds(name, opening, attrs, body, closing + rest);
    var k := |opening| + |attrs| + 1 + |body|;
    assert s[k..] == closing + rest;
    assert s[k..][..|closing|] == closing;
    PrefixCI(s[k..], closing, closer);
    assert s[k] == '<' by {
      assert Lower(closing[0]) == '<';
    }
    assert s[j + 1..k] == AttrsTail(attrs) + body;
    assert NoCloser(s[j + 1..k], name);
    NoCloserBefore(s, name, j + 1, k);
    BlockAt(s, name, j, k);
  }

  /** Where the pattern matches, its match is replaced and the scan resumes after it. */
  lemma ReplacesMatch(s: string, p: Pattern, rep: string, n: nat)
    requires 0 < n <= |s| && MatchLength(p, s) == n
    ensures ReplaceAll(s, p, rep) == rep + ReplaceAll(s[n..], p, rep)
  {
  }

  /** Removing script blocks drops a whole block, contents included, in any case. */
  lemma ScriptBlockDropped(opening: string, attrs: string, body: string, closing: string, rest: string)
    requires TagSpelling("script", opening, closing) && NoCloser(AttrsTail(attrs) + body, "script")
    ensures ReplaceAll(Block(opening, attrs, body, closing) + rest, ScriptBlock, "") ==
            ReplaceAll(rest, ScriptBlock, "")
  {
    var block := Block(opening, attrs, body, closing);
    assert IsTagName("script");
    BlockMatched("script", opening, attrs, body, closing, rest);
    ReplacesMatch(block + rest, ScriptBlock, "", |block|);
    assert (block + rest)[|block|..] == rest;
  }

  /** Removing style blocks drops a whole block, contents included, in any case. */
  lemma StyleBlockDropped(opening: string, attrs: string, body: string, closing: string, rest: string)
    requires TagSpelling("style", opening, closing) && NoCloser(AttrsTail(attrs) + body, "style")
    ensures ReplaceAll(Block(opening, attrs, body, closing) + rest, StyleBlock, "") ==
            ReplaceAll(rest, StyleBlock, "")
  {
    var block := Block(opening, attrs, body, closing);
    assert IsTagName("style");
    BlockMatched("style", opening, attrs, body, closing, rest);
    ReplacesMatch(block + rest, StyleBlock, "", |block|);
    assert (block + rest)[|block|..] == rest;
  }

  /** A leading script block, in any case, contributes nothing to the cleaned text. */
  lemma CleanHtmlDropsScript(opening: string, attrs: string, body: string, closing: string, rest: string)
    requires TagSpelling("script", opening, closing) && NoCloser(AttrsTail(attrs) + body, "script")
    ensures CleanHtml(Block(opening, attrs, body, closing) + rest) == CleanHtml(rest)
  {
    ScriptBlockDropped(opening, attrs, body, closing, rest);
  }

  // ---------------------------------------------------------------------------------------
  // Idempotence

  /** No pattern of the chain matches at the start of a tag-free string without newline runs. */
  lemma NoMatchInClean(p: Pattern, s: string)
    requires TagFree(s) && NoTripleNewline(s) && s != []
    ensures MatchLength(p, s) == 0
  {
    match p
    case ScriptBlock => BlockNoMatch(s, "script");
    case StyleBlock => BlockNoMatch(s, "style");
    case ParagraphEnd =>
      if |s| >= 4 {
        assert !IsTag(s, 0, 3);
      }
    case LineBreak =>
      if |s| >= 3 {
        var j := 3 + LeadingSpaces(s[3..]);
        forall i | 3 <= i < j ensures s[i] != '>' {
          assert s[i] == s[3..][i - 3];
        }
        if j < |s| {
          assert !IsTag(s, 0, j);
        }
        if j + 1 < |s| {
          assert !IsTag(s, 0, j + 1);
        }
      }
    case AnyTag =>
      match FindChar(s, '>', 1) {
        case None =>
        case Some(j) => assert !IsTag(s, 0, j);
      }
    case NewlineRun =>
      NewlineRunStart(s);
  }

  lemma NewlineRunStart(s: string)
    ensures LeadingNewlines(s) >= 3 ==> |s| >= 3 && s[0] == '\n' && s[1] == '\n' && s[2] == '\n'
  {
  }

  lemma BlockNoMatch(s: string, name: string)
    requires TagFree(s) && IsTagName(name)
    ensures BlockLength(s, name) == 0
  {
    if StartsWithCI(s, "<" + name) {
      assert s[0] == '<' by {
        assert Lower(s[0]) == '<';
      }
      forall i | 1 <= i < |name| + 1 ensures s[i] != '>' {
        assert Lower(s[i]) == ("<" + name)[i] == name[i - 1];
      }
      assert forall j :: 1 < j < |s| && s[j] == '>' ==> !IsTag(s, 0, j);
      match FindChar(s, '>', |name| + 1) {
        case None =>
        case Some(j) => assert false;
      }
    }
  }

  /** On a tag-free string without newline runs every replacement of the chain is the
      identity. */
  lemma {:induction false} ReplaceAllClean(s: string, p: Pattern, rep: string)
    requires TagFree(s) && NoTripleNewline(s)
    ensures ReplaceAll(s, p, rep) == s
    decreases |s|
  {
    if s != [] {
      NoMatchInClean(p, s);
      TagFreeSlice(s, 1, |s|);
      NoTripleSlice(s, 1, |s|);
      ReplaceAllClean(s[1..], p, rep);
    }
  }

  /** Cleaning cleaned text changes nothing. */
  lemma CleanHtmlIdempotent(html: string)
    ensures CleanHtml(CleanHtml(html)) == CleanHtml(html)
  {
    var r := CleanHtml(html);
    ReplaceAllClean(r, ScriptBlock, "");
    ReplaceAllClean(r, StyleBlock, "");
    ReplaceAllClean(r, ParagraphEnd, "\n\n");
    ReplaceAllClean(r, LineBreak, "\n");
    ReplaceAllClean(r, AnyTag, "");
    ReplaceAllClean(r, NewlineRun, "\n\n");
    TrimTrimmed(r);
  }
}
