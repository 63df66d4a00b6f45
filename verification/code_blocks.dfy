/** The article detail page's code-block parser (`parseCodeBlocks` in
    src/pages/Articles/ArticleCardDetail.tsx). It cuts an article's code text
    into terminal-style blocks. Lines holding `// @filename:`,
    `// @language:` or `// @title:` only set the metadata of the block being
    collected; a blank line followed (after further blank lines) by a line
    opening a comment ends the block. */
module CodeBlocks {
  import opened Common

  datatype CodeBlock = CodeBlock(code: String, language: String, filename: String, title: Option<String>)

  const DefaultLanguage: String := "javascript"
  const DefaultFilename: String := "_> zsh"
  const FallbackFilename: String := "code.js"

  // ---------------------------------------------------------------------
  // Marker lines: the regular expressions /\/\/\s*@filename:\s*(.+)/i,
  // /\/\/\s*@language:\s*(.+)/i and /\/\/\s*@title:\s*(.+)/i
  // ---------------------------------------------------------------------

  datatype Key = FilenameKey | LanguageKey | TitleKey

  function KeyText(k: Key): String {
    match k
    case FilenameKey => "@filename:"
    case LanguageKey => "@language:"
    case TitleKey => "@title:"
  }

  /** End of the run of characters that a greedy `.+` eats from `i`. */
  function DotRunEnd(s: String, i: nat): (j: nat)
    requires i <= |s|
    ensures i <= j <= |s|
    ensures forall k :: i <= k < j ==> !IsLineTerminator(s[k])
    ensures j == |s| || IsLineTerminator(s[j])
    decreases |s| - i
  {
    if i < |s| && !IsLineTerminator(s[i]) then DotRunEnd(s, i + 1) else i
  }

  /** Where `(.+)` starts after `\s*` has given back as few characters as it
      must: the largest position in `[lo, hi]` holding a character `.`
      matches, if any. */
  function CaptureStart(s: String, lo: nat, hi: nat): (q: Option<nat>)
    requires lo <= hi <= |s|
    ensures q.Some? ==> lo <= q.value <= hi && q.value < |s| && !IsLineTerminator(s[q.value])
    ensures q.Some? ==> forall k :: q.value < k <= hi && k < |s| ==> IsLineTerminator(s[k])
    ensures q.None? ==> forall k :: lo <= k <= hi && k < |s| ==> IsLineTerminator(s[k])
    decreases hi - lo
  {
    if hi < |s| && !IsLineTerminator(s[hi]) then Some(hi)
    else if hi == lo then None
    else CaptureStart(s, lo, hi - 1)
  }

  /** The trimmed capture of the marker expression for `k` when a match starts
      at index `i` of `line`. Case is ignored for ASCII letters only, as for a
      JavaScript `/i` expression without the `u` flag. */
  function MatchAt(line: String, k: Key, i: nat): (m: Option<String>)
    requires i <= |line|
    ensures m.Some? ==> Trimmed(m.value)
  {
    if !(i + 2 <= |line| && line[i..i + 2] == "//") then None
    else
      var j := SkipWhite(line, i + 2);
      var key := KeyText(k);
      if !(j + |key| <= |line| && Lower(line[j..j + |key|]) == key) then None
      else
        var v := j + |key|;
        var q := CaptureStart(line, v, SkipWhite(line, v));
        if q.None? then None
        else Some(Trim(line[q.value..DotRunEnd(line, q.value)]))
  }

  /** The leftmost match at or after index `i`. */
  function MatchFrom(line: String, k: Key, i: nat): (m: Option<String>)
    requires i <= |line|
    ensures m.Some? ==> Trimmed(m.value)
    decreases |line| - i
  {
    var m := MatchAt(line, k, i);
    if m.Some? || i == |line| then m else MatchFrom(line, k, i + 1)
  }

  /** `line.match(...)`, reduced to the trimmed first capture group. */
  function MatchKey(line: String, k: Key): (m: Option<String>)
    ensures m.Some? ==> Trimmed(m.value)
  {
    MatchFrom(line, k, 0)
  }

  /** What a line does to the parser: the filename marker is checked first,
      then the language marker, then the title marker. */
  datatype Directive = SetFilename(value: String) | SetLanguage(value: String) | SetTitle(value: String) | Plain

  function Classify(line: String): Directive {
    var f := MatchKey(line, FilenameKey);
    var l := MatchKey(line, LanguageKey);
    var t := MatchKey(line, TitleKey);
    if f.Some? then SetFilename(f.value)
    else if l.Some? then SetLanguage(l.value)
    else if t.Some? then SetTitle(t.value)
    else Plain
  }

  predicate IsMarker(line: String) {
    !Classify(line).Plain?
  }

  /** The value a line sets for key `k`, if it is a marker for that key. */
  function MarkerValue(line: String, k: Key): Option<String> {
    match (Classify(line), k)
    case (SetFilename(v), FilenameKey) => Some(v)
    case (SetLanguage(v), LanguageKey) => Some(v)
    case (SetTitle(v), TitleKey) => Some(v)
    case _ => None
  }

  lemma {:induction false} NoMatchInWhite(line: String, k: Key, i: nat)
    requires i <= |line| && AllWhite(line)
    ensures MatchFrom(line, k, i).None?
    decreases |line| - i
  {
    if i + 2 <= |line| {
      assert IsWhite(line[i]);
      assert line[i..i + 2][0] == line[i];
    }
    if i < |line| {
      NoMatchInWhite(line, k, i + 1);
    }
  }

  /** A blank line is never a marker: every marker contains `//`. */
  lemma {:induction false} BlankIsPlain(line: String)
    requires Trim(line) == []
    ensures Classify(line) == Plain
  {
    NoMatchInWhite(line, FilenameKey, 0);
    NoMatchInWhite(line, LanguageKey, 0);
    NoMatchInWhite(line, TitleKey, 0);
  }

  /** Marker values are trimmed. */
  lemma {:induction false} MarkerValueTrimmed(line: String, k: Key)
    requires MarkerValue(line, k).Some?
    ensures Trimmed(MarkerValue(line, k).value)
  {
  }

  // ---------------------------------------------------------------------
  // The parser, one line at a time as in the source's forEach
  // ---------------------------------------------------------------------

  predicate Blank(line: String) {
    Trim(line) == []
  }

  // The trimmed line starts a line comment or a block comment.
  predicate OpensComment(line: String) {
    StartsWith(Trim(line), "//") || StartsWith(Trim(line), "/*")
  }

  /** A line of the text together with the tests the parser applies to it. */
  datatype Line = Line(text: String, kind: Directive, blank: bool, opensComment: bool)

  function Annotate(text: String): Line {
    Line(text, Classify(text), Blank(text), OpensComment(text))
  }

  /** Each string annotated, in order. */
  function AnnotateAll(ps: seq<String>): (ls: seq<Line>)
    ensures |ls| == |ps|
    ensures forall k :: 0 <= k < |ls| ==> ls[k].text == ps[k]
  {
    if |ps| == 0 then [] else [Annotate(ps[0])] + AnnotateAll(ps[1..])
  }

  /** `code.split("\n")`, each line annotated. */
  function Lines(code: String): seq<Line> {
    AnnotateAll(Split(code, '\n'))
  }

  /** Index of the first non-blank line at or after `i`. */
  function NextNonBlank(lines: seq<Line>, i: nat): (n: nat)
    requires i <= |lines|
    ensures i <= n <= |lines|
    ensures forall k :: i <= k < n ==> lines[k].blank
    ensures n == |lines| || !lines[n].blank
    decreases |lines| - i
  {
    if i < |lines| && lines[i].blank then NextNonBlank(lines, i + 1) else i
  }

  /** The next non-blank line after line `i` opens a comment. */
  predicate CommentFollows(lines: seq<Line>, i: nat)
    requires i < |lines|
  {
    var n := NextNonBlank(lines, i + 1);
    n < |lines| && lines[n].opensComment
  }

  /** A block before it is joined: its lines and metadata. */
  datatype Draft = Draft(lines: seq<String>, language: String, filename: String, title: String)

  /** The parser's variables: finished blocks, the block being collected and
      the current metadata. */
  datatype Cursor = Cursor(done: seq<Draft>, current: seq<String>, language: String, filename: String, title: String)

  const Start: Cursor := Cursor([], [], DefaultLanguage, DefaultFilename, "")

  /** The forEach callback for line `i`. */
  function Step(lines: seq<Line>, i: nat, c: Cursor): Cursor
    requires i < |lines|
  {
    match lines[i].kind
    case SetFilename(v) => c.(filename := v)
    case SetLanguage(v) => c.(language := v)
    case SetTitle(v) => c.(title := v)
    case Plain =>
      if lines[i].blank && |c.current| > 0 && i < |lines| - 1 && CommentFollows(lines, i) then
        Cursor(c.done + [Draft(c.current, c.language, c.filename, c.title)], [], c.language, c.filename, "")
      else
        c.(current := c.current + [lines[i].text])
  }

  /** The forEach over lines `i..`. */
  function Run(lines: seq<Line>, i: nat, c: Cursor): Cursor
    requires i <= |lines|
    decreases |lines| - i
  {
    if i == |lines| then c else Run(lines, i + 1, Step(lines, i, c))
  }

  /** Pushing the remaining block, if it is non-empty. */
  function Close(c: Cursor): seq<Draft> {
    if |c.current| > 0 then c.done + [Draft(c.current, c.language, c.filename, c.title)] else c.done
  }

  function Render(d: Draft): CodeBlock {
    CodeBlock(Join(d.lines, '\n'), d.language, d.filename, Some(d.title))
  }

  function RenderAll(ds: seq<Draft>): (bs: seq<CodeBlock>)
    ensures |bs| == |ds|
    ensures forall k :: 0 <= k < |ds| ==> bs[k] == Render(ds[k])
  {
    seq(|ds|, k requires 0 <= k < |ds| => Render(ds[k]))
  }

  /** The block used when no line of a non-empty text is code. */
  function Fallback(code: String): CodeBlock {
    CodeBlock(code, DefaultLanguage, FallbackFilename, None)
  }

  /** The blocks of a non-empty text, given its annotated lines. */
  function ParseLines(lines: seq<Line>, code: String): seq<CodeBlock> {
    var drafts := Close(Run(lines, 0, Start));
    if |drafts| > 0 then RenderAll(drafts) else [Fallback(code)]
  }

  /** `parseCodeBlocks`. The empty text has no blocks and any other text has
      at least one. */
  function ParseCodeBlocks(code: String): (blocks: seq<CodeBlock>)
    ensures code == [] <==> blocks == []
  {
    if code == [] then [] else ParseLines(Lines(code), code)
  }

  // ---------------------------------------------------------------------
  // Reference: the blocks as segments between cut lines
  // ---------------------------------------------------------------------

  /** Line `i` ends the segment that starts at `lo`: it is a blank non-marker
      line, it is not the last line, the segment already holds code, and the
      next non-blank line opens a comment. */
  predicate CutAt(lines: seq<Line>, lo: nat, i: nat)
    requires lo <= i < |lines|
  {
    lines[i].kind.Plain? && lines[i].blank && |CodeLines(lines, lo, i)| > 0
    && i < |lines| - 1 && CommentFollows(lines, i)
  }

  /** The first cut at or after `i` of the segment starting at `lo`, or
      `|lines|` when there is none. */
  function NextCut(lines: seq<Line>, lo: nat, i: nat): (c: nat)
    requires lo <= i <= |lines|
    ensures i <= c <= |lines|
    decreases |lines| - i
  {
    if i == |lines| then i
    else if CutAt(lines, lo, i) then i
    else NextCut(lines, lo, i + 1)
  }

  /** `NextCut` is a cut, or the end, and no earlier line from `i` is. */
  lemma {:induction false} NextCutSpec(lines: seq<Line>, lo: nat, i: nat)
    requires lo <= i <= |lines|
    ensures var c := NextCut(lines, lo, i);
            && (c < |lines| ==> CutAt(lines, lo, c))
            && forall k :: i <= k < c ==> !CutAt(lines, lo, k)
    decreases |lines| - i
  {
    if i < |lines| && !CutAt(lines, lo, i) {
      NextCutSpec(lines, lo, i + 1);
    }
  }

  /** The code lines of `lines[lo..hi]`, in order. */
  function CodeLines(lines: seq<Line>, lo: nat, hi: nat): seq<String>
    requires lo <= hi <= |lines|
    decreases hi - lo
  {
    if hi == lo then []
    else CodeLines(lines, lo, hi - 1) + (if lines[hi - 1].kind.Plain? then [lines[hi - 1].text] else [])
  }

  /** The value a directive sets for key `k`, if any. */
  function ValueFor(d: Directive, k: Key): Option<String> {
    match (d, k)
    case (SetFilename(v), FilenameKey) => Some(v)
    case (SetLanguage(v), LanguageKey) => Some(v)
    case (SetTitle(v), TitleKey) => Some(v)
    case _ => None
  }

  /** The value of the last marker for `k` in `lines[lo..hi]`. */
  function LastValue(lines: seq<Line>, k: Key, lo: nat, hi: nat): Option<String>
    requires lo <= hi <= |lines|
    decreases hi - lo
  {
    if hi == lo then None
    else
      var m := ValueFor(lines[hi - 1].kind, k);
      if m.Some? then m else LastValue(lines, k, lo, hi - 1)
  }

  /** The blocks of `lines[lo..]`: each segment's code lines, with the
      language and filename of the last such markers before the segment's end
      (markers of earlier segments included) and the title of the last title
      marker inside the segment. A final segment without code gives no block. */
  function Segments(lines: seq<Line>, lo: nat): seq<Draft>
    requires lo <= |lines|
    decreases |lines| - lo
  {
    if lo == |lines| then []
    else
      var c := NextCut(lines, lo, lo);
      var d := SegmentDraft(lines, lo, c);
      if c == |lines| then (if |d.lines| > 0 then [d] else [])
      else [d] + Segments(lines, c + 1)
  }

  /** The block made of `lines[lo..c]`. */
  function SegmentDraft(lines: seq<Line>, lo: nat, c: nat): Draft
    requires lo <= c <= |lines|
  {
    Draft(CodeLines(lines, lo, c),
          LastValue(lines, LanguageKey, 0, c).GetOr(DefaultLanguage),
          LastValue(lines, FilenameKey, 0, c).GetOr(DefaultFilename),
          LastValue(lines, TitleKey, lo, c).GetOr(""))
  }

  // ---------------------------------------------------------------------
  // The parser computes the reference
  // ---------------------------------------------------------------------

  /** A segment prefix holds code exactly when one of its lines is not a
      marker. */
  lemma {:induction false} CodeLinesNonEmptyIff(lines: seq<Line>, lo: nat, i: nat)
    requires lo <= i <= |lines|
    ensures |CodeLines(lines, lo, i)| > 0 <==> exists j :: lo <= j < i && lines[j].kind.Plain?
    decreases i - lo
  {
    if i > lo {
      CodeLinesNonEmptyIff(lines, lo, i - 1);
      if !lines[i - 1].kind.Plain? && exists j :: lo <= j < i && lines[j].kind.Plain? {
        var j :| lo <= j < i && lines[j].kind.Plain?;
        assert j < i - 1;
      }
    }
  }

  /** The first cut at or after `i` is `m` when `m` is a cut (or the end) and
      nothing in between is. */
  lemma {:induction false} NextCutIs(lines: seq<Line>, lo: nat, i: nat, m: nat)
    requires lo <= i <= m <= |lines|
    requires m < |lines| ==> CutAt(lines, lo, m)
    requires forall k :: i <= k < m ==> !CutAt(lines, lo, k)
    ensures NextCut(lines, lo, i) == m
    decreases m - i
  {
    if i < m {
      NextCutIs(lines, lo, i + 1, m);
    }
  }

  /** The cursor after lines `..i` of a segment starting at `lo` describes
      that prefix of the segment. */
  ghost predicate Describes(lines: seq<Line>, lo: nat, i: nat, c: Cursor)
    requires lo <= i <= |lines|
  {
    && c.current == CodeLines(lines, lo, i)
    && c.language == LastValue(lines, LanguageKey, 0, i).GetOr(DefaultLanguage)
    && c.filename == LastValue(lines, FilenameKey, 0, i).GetOr(DefaultFilename)
    && c.title == LastValue(lines, TitleKey, lo, i).GetOr("")
  }

  /** A code line, or a marker, that does not end the segment extends the
      cursor's description by one line. */
  lemma {:induction false} StepInside(lines: seq<Line>, lo: nat, i: nat, c: Cursor)
    requires lo <= i < |lines| && !CutAt(lines, lo, i)
    requires Describes(lines, lo, i, c)
    ensures Step(lines, i, c).done == c.done
    ensures Describes(lines, lo, i + 1, Step(lines, i, c))
  {
  }

  /** The cut line closes the segment's block and starts a fresh one. */
  lemma {:induction false} StepCut(lines: seq<Line>, lo: nat, i: nat, c: Cursor)
    requires lo <= i < |lines| && CutAt(lines, lo, i)
    requires Describes(lines, lo, i, c)
    ensures Step(lines, i, c).done == c.done + [SegmentDraft(lines, lo, i)]
    ensures Describes(lines, i + 1, i + 1, Step(lines, i, c))
  {
  }

  /** At the end of the text the cursor's open block is the last segment. */
  lemma {:induction false} CloseAtEnd(lines: seq<Line>, lo: nat, c: Cursor)
    requires lo <= |lines| && (lo < |lines| ==> NextCut(lines, lo, lo) == |lines|)
    requires Describes(lines, lo, |lines|, c)
    ensures Close(c) == c.done + Segments(lines, lo)
  {
    if lo < |lines| {
      SegmentsLast(lines, lo);
    }
  }

  /** Running the parser from inside a segment finishes the segments from its
      start. */
  lemma {:induction false} RunMatchesSegments(lines: seq<Line>, lo: nat, i: nat, c: Cursor)
    requires lo <= i <= |lines| && i <= NextCut(lines, lo, lo)
    requires Describes(lines, lo, i, c)
    ensures Close(Run(lines, i, c)) == c.done + Segments(lines, lo)
    decreases |lines| - i, 1
  {
    if i == |lines| {
      CloseAtEnd(lines, lo, c);
    } else if i == NextCut(lines, lo, lo) {
      RunAtCut(lines, lo, i, c);
    } else {
      RunInside(lines, lo, i, c);
    }
  }

  lemma {:induction false} RunAtCut(lines: seq<Line>, lo: nat, i: nat, c: Cursor)
    requires lo <= i < |lines| && i == NextCut(lines, lo, lo)
    requires Describes(lines, lo, i, c)
    ensures Close(Run(lines, i, c)) == c.done + Segments(lines, lo)
    decreases |lines| - i, 0
  {
    NextCutSpec(lines, lo, lo);
    var c' := Step(lines, i, c);
    StepCut(lines, lo, i, c);
    RunMatchesSegments(lines, i + 1, i + 1, c');
    SegmentsAtCut(lines, lo);
    assert Run(lines, i, c) == Run(lines, i + 1, c');
    assert c'.done + Segments(lines, i + 1) == c.done + Segments(lines, lo);
  }

  lemma {:induction false} RunInside(lines: seq<Line>, lo: nat, i: nat, c: Cursor)
    requires lo <= i < |lines| && i < NextCut(lines, lo, lo)
    requires Describes(lines, lo, i, c)
    ensures Close(Run(lines, i, c)) == c.done + Segments(lines, lo)
    decreases |lines| - i, 0
  {
    NextCutSpec(lines, lo, lo);
    var c' := Step(lines, i, c);
    StepInside(lines, lo, i, c);
    NextCutIs(lines, lo, i + 1, NextCut(lines, lo, lo));
    RunMatchesSegments(lines, lo, i + 1, c');
    assert Run(lines, i, c) == Run(lines, i + 1, c');
  }

  /** Parsing annotated lines renders their reference segments, or falls back
      to the raw text when there are none. */
  lemma {:induction false} ParseLinesMatchesSegments(lines: seq<Line>, code: String)
    ensures var segs := Segments(lines, 0);
            ParseLines(lines, code) == if |segs| > 0 then RenderAll(segs) else [Fallback(code)]
  {
    assert Describes(lines, 0, 0, Start);
    RunMatchesSegments(lines, 0, 0, Start);
    assert Start.done + Segments(lines, 0) == Segments(lines, 0);
  }

  /** `parseCodeBlocks` renders the reference segments of the text's lines,
      or falls back to the raw text when there are none. */
  lemma {:induction false} ParseMatchesSegments(code: String)
    requires code != []
    ensures var segs := Segments(Lines(code), 0);
            ParseCodeBlocks(code) == if |segs| > 0 then RenderAll(segs) else [Fallback(code)]
  {
    ParseLinesMatchesSegments(Lines(code), code);
  }

  // ---------------------------------------------------------------------
  // Properties of the reference
  // ---------------------------------------------------------------------

  /** `t` is the text of some code line. */
  ghost predicate IsCodeText(lines: seq<Line>, t: String) {
    exists k :: 0 <= k < |lines| && lines[k].text == t && lines[k].kind.Plain?
  }

  lemma {:induction false} CodeLinesAreCode(lines: seq<Line>, lo: nat, hi: nat)
    requires lo <= hi <= |lines|
    ensures forall t :: t in CodeLines(lines, lo, hi) ==> IsCodeText(lines, t)
    decreases hi - lo
  {
    if hi > lo {
      CodeLinesAreCode(lines, lo, hi - 1);
      if lines[hi - 1].kind.Plain? {
        assert IsCodeText(lines, lines[hi - 1].text);
      }
    }
  }

  /** Every block holds at least one line, and only code lines of the input. */
  lemma {:induction false} SegmentsAreCode(lines: seq<Line>, lo: nat)
    requires lo <= |lines|
    ensures forall d :: d in Segments(lines, lo) ==>
              |d.lines| > 0 && forall t :: t in d.lines ==> IsCodeText(lines, t)
    decreases |lines| - lo
  {
    if lo < |lines| {
      var c := NextCut(lines, lo, lo);
      NextCutSpec(lines, lo, lo);
      CodeLinesAreCode(lines, lo, c);
      if c < |lines| {
        SegmentsAreCode(lines, c + 1);
      }
    }
  }

  /** There are no blocks exactly when every line is a marker. */
  lemma {:induction false} SegmentsEmptyIff(lines: seq<Line>)
    ensures Segments(lines, 0) == [] <==> forall k :: 0 <= k < |lines| ==> !lines[k].kind.Plain?
  {
    if |lines| > 0 {
      var c := NextCut(lines, 0, 0);
      NextCutSpec(lines, 0, 0);
      CodeLinesNonEmptyIff(lines, 0, c);
      if forall k :: 0 <= k < |lines| ==> !lines[k].kind.Plain? {
        assert c == |lines|;
      } else {
        var j :| 0 <= j < |lines| && lines[j].kind.Plain?;
        if c == |lines| {
          assert lines[j].kind.Plain?;
        }
      }
    }
  }

  /** Indices of the lines dropped as block separators in `lines[lo..]`. */
  function Cuts(lines: seq<Line>, lo: nat): set<nat>
    requires lo <= |lines|
    decreases |lines| - lo
  {
    if lo == |lines| then {}
    else
      var c := NextCut(lines, lo, lo);
      if c == |lines| then {} else {c} + Cuts(lines, c + 1)
  }

  /** Line `x` is the first cut of the segment that starts at `p`. */
  predicate FirstCutFrom(lines: seq<Line>, p: nat, x: nat)
    requires p <= x < |lines|
  {
    CutAt(lines, p, x) && forall k :: p <= k < x ==> !CutAt(lines, p, k)
  }

  /** Line `p` starts a segment of `lines[lo..]`: it is `lo`, or it follows
      a cut. */
  predicate SegmentStart(lines: seq<Line>, lo: nat, p: nat)
    requires lo <= |lines|
  {
    p == lo || (p >= 1 && p - 1 in Cuts(lines, lo))
  }

  /** The cuts of `lines[lo..]` are the first cut of the segment at `lo`
      and the cuts after it. */
  lemma {:induction false} CutsUnfold(lines: seq<Line>, lo: nat)
    requires lo < |lines| && NextCut(lines, lo, lo) < |lines|
    ensures var c := NextCut(lines, lo, lo);
            && Cuts(lines, lo) == {c} + Cuts(lines, c + 1)
            && FirstCutFrom(lines, lo, c)
  {
    NextCutSpec(lines, lo, lo);
  }

  /** A cut is the first cut of the segment it lies in. */
  lemma {:induction false} CutIsFirstCut(lines: seq<Line>, lo: nat, x: nat)
    requires lo <= |lines| && x in Cuts(lines, lo)
    ensures lo <= x < |lines|
    ensures exists p :: lo <= p <= x && SegmentStart(lines, lo, p) && FirstCutFrom(lines, p, x)
    decreases |lines| - lo
  {
    var c := NextCut(lines, lo, lo);
    CutsUnfold(lines, lo);
    if x == c {
      assert SegmentStart(lines, lo, lo);
    } else {
      CutIsFirstCut(lines, c + 1, x);
      var p :| c + 1 <= p <= x && SegmentStart(lines, c + 1, p) && FirstCutFrom(lines, p, x);
      assert SegmentStart(lines, lo, p);
    }
  }

  /** Every cut is the first cut of the segment it lies in. */
  lemma {:induction false} CutsAreFirstCuts(lines: seq<Line>, lo: nat)
    requires lo <= |lines|
    ensures forall x :: x in Cuts(lines, lo) ==>
              lo <= x < |lines|
              && exists p :: lo <= p <= x && SegmentStart(lines, lo, p) && FirstCutFrom(lines, p, x)
  {
    forall x | x in Cuts(lines, lo)
      ensures lo <= x < |lines|
      ensures exists p :: lo <= p <= x && SegmentStart(lines, lo, p) && FirstCutFrom(lines, p, x)
    {
      CutIsFirstCut(lines, lo, x);
    }
  }

  /** Every first cut of a segment is a cut. */
  lemma {:induction false} FirstCutsAreCuts(lines: seq<Line>, lo: nat, p: nat, x: nat)
    requires lo <= p <= x < |lines|
    requires SegmentStart(lines, lo, p) && FirstCutFrom(lines, p, x)
    ensures x in Cuts(lines, lo)
    decreases |lines| - lo
  {
    var c := NextCut(lines, lo, lo);
    NextCutSpec(lines, lo, lo);
    if p == lo {
      assert c <= x;
      assert x == c;
    } else {
      assert p - 1 in Cuts(lines, lo);
      assert c < |lines|;
      CutsUnfold(lines, lo);
      if p - 1 != c {
        CutIsFirstCut(lines, c + 1, p - 1);
      }
      assert SegmentStart(lines, c + 1, p);
      FirstCutsAreCuts(lines, c + 1, p, x);
    }
  }

  /** A line is dropped as a separator exactly when it is the first cut of
      the segment it lies in: a blank non-marker line that is not the last,
      after some code of that segment, with a comment as the next non-blank
      line, and no earlier line of the segment qualifying. */
  lemma {:induction false} CutsAreSeparators(lines: seq<Line>, lo: nat)
    requires lo <= |lines|
    ensures forall x :: x in Cuts(lines, lo) ==>
              lo <= x < |lines| - 1 && lines[x].blank && CommentFollows(lines, x)
    ensures forall x :: x in Cuts(lines, lo) <==>
              lo <= x < |lines|
              && exists p :: lo <= p <= x && SegmentStart(lines, lo, p) && FirstCutFrom(lines, p, x)
  {
    CutsAreFirstCuts(lines, lo);
    forall x, p | lo <= p <= x < |lines| && SegmentStart(lines, lo, p) && FirstCutFrom(lines, p, x)
      ensures x in Cuts(lines, lo)
    {
      FirstCutsAreCuts(lines, lo, p, x);
    }
  }

  /** The code lines of `lines[lo..hi]` whose index is not in `cuts`. */
  function Kept(lines: seq<Line>, lo: nat, hi: nat, cuts: set<nat>): seq<String>
    requires lo <= hi <= |lines|
    decreases hi - lo
  {
    if hi == lo then []
    else Kept(lines, lo, hi - 1, cuts)
         + (if lines[hi - 1].kind.Plain? && (hi - 1) !in cuts then [lines[hi - 1].text] else [])
  }

  lemma {:induction false} KeptSplit(lines: seq<Line>, lo: nat, m: nat, hi: nat, cuts: set<nat>)
    requires lo <= m <= hi <= |lines|
    ensures Kept(lines, lo, hi, cuts) == Kept(lines, lo, m, cuts) + Kept(lines, m, hi, cuts)
    decreases hi - m
  {
    if hi > m {
      KeptSplit(lines, lo, m, hi - 1, cuts);
    }
  }

  lemma {:induction false} KeptNoCuts(lines: seq<Line>, lo: nat, hi: nat, cuts: set<nat>)
    requires lo <= hi <= |lines|
    requires forall x :: x in cuts ==> x < lo || x >= hi
    ensures Kept(lines, lo, hi, cuts) == CodeLines(lines, lo, hi)
    decreases hi - lo
  {
    if hi > lo {
      KeptNoCuts(lines, lo, hi - 1, cuts);
    }
  }

  lemma {:induction false} KeptSameCuts(lines: seq<Line>, lo: nat, hi: nat, a: set<nat>, b: set<nat>)
    requires lo <= hi <= |lines|
    requires forall x :: lo <= x < hi ==> (x in a <==> x in b)
    ensures Kept(lines, lo, hi, a) == Kept(lines, lo, hi, b)
    decreases hi - lo
  {
    if hi > lo {
      KeptSameCuts(lines, lo, hi - 1, a, b);
    }
  }

  lemma {:induction false} CutsAbove(lines: seq<Line>, lo: nat)
    requires lo <= |lines|
    ensures forall x :: x in Cuts(lines, lo) ==> lo <= x
    decreases |lines| - lo
  {
    if lo < |lines| {
      var c := NextCut(lines, lo, lo);
      if c < |lines| {
        CutsAbove(lines, c + 1);
      }
    }
  }

  function Flatten(ds: seq<Draft>): seq<String> {
    if |ds| == 0 then [] else ds[0].lines + Flatten(ds[1..])
  }

  lemma {:induction false} FlattenCons(d: Draft, ds: seq<Draft>)
    ensures Flatten([d] + ds) == d.lines + Flatten(ds)
  {
    assert ([d] + ds)[1..] == ds;
  }

  /** A segment that ends at a cut is followed by the segments after the cut. */
  lemma {:induction false} SegmentsAtCut(lines: seq<Line>, lo: nat)
    requires lo < |lines| && NextCut(lines, lo, lo) < |lines|
    ensures var c := NextCut(lines, lo, lo);
            Segments(lines, lo) == [SegmentDraft(lines, lo, c)] + Segments(lines, c + 1)
  {
  }

  /** A segment that reaches the end is the last one, and gives a block only
      if it holds code. */
  lemma {:induction false} SegmentsLast(lines: seq<Line>, lo: nat)
    requires lo < |lines| && NextCut(lines, lo, lo) == |lines|
    ensures Segments(lines, lo) == if |CodeLines(lines, lo, |lines|)| > 0 then [SegmentDraft(lines, lo, |lines|)] else []
  {
  }

  lemma {:induction false} CutsAtCut(lines: seq<Line>, lo: nat)
    requires lo < |lines|
    ensures var c := NextCut(lines, lo, lo);
            Cuts(lines, lo) == if c < |lines| then {c} + Cuts(lines, c + 1) else {}
  {
  }

  /** Around a cut at `c`, the kept lines are the segment's code lines
      followed by the kept lines after the cut. */
  lemma {:induction false} KeptAtCut(lines: seq<Line>, lo: nat, c: nat, cuts: set<nat>, rest: set<nat>)
    requires lo <= c < |lines|
    requires cuts == {c} + rest
    requires forall x :: x in rest ==> c + 1 <= x
    ensures Kept(lines, lo, |lines|, cuts) == CodeLines(lines, lo, c) + Kept(lines, c + 1, |lines|, rest)
  {
    KeptSplit(lines, lo, c, |lines|, cuts);
    KeptSplit(lines, c, c + 1, |lines|, cuts);
    KeptNoCuts(lines, lo, c, cuts);
    KeptSameCuts(lines, c + 1, |lines|, cuts, rest);
  }

  /** Concatenating the blocks' lines gives the input's code lines minus the
      separator lines. */
  lemma {:induction false} FlattenSegments(lines: seq<Line>, lo: nat)
    requires lo <= |lines|
    ensures Flatten(Segments(lines, lo)) == Kept(lines, lo, |lines|, Cuts(lines, lo))
    decreases |lines| - lo
  {
    if lo < |lines| {
      var c := NextCut(lines, lo, lo);
      if c == |lines| {
        FlattenLast(lines, lo);
      } else {
        FlattenSegments(lines, c + 1);
        FlattenAtCut(lines, lo);
      }
    }
  }

  lemma {:induction false} FlattenLast(lines: seq<Line>, lo: nat)
    requires lo < |lines| && NextCut(lines, lo, lo) == |lines|
    ensures Flatten(Segments(lines, lo)) == Kept(lines, lo, |lines|, Cuts(lines, lo))
  {
    CutsAtCut(lines, lo);
    SegmentsLast(lines, lo);
    KeptNoCuts(lines, lo, |lines|, {});
  }

  lemma {:induction false} FlattenAtCut(lines: seq<Line>, lo: nat)
    requires lo < |lines| && NextCut(lines, lo, lo) < |lines|
    requires var c := NextCut(lines, lo, lo);
             Flatten(Segments(lines, c + 1)) == Kept(lines, c + 1, |lines|, Cuts(lines, c + 1))
    ensures Flatten(Segments(lines, lo)) == Kept(lines, lo, |lines|, Cuts(lines, lo))
  {
    var c := NextCut(lines, lo, lo);
    CutsAtCut(lines, lo);
    SegmentsAtCut(lines, lo);
    CutsAbove(lines, c + 1);
    KeptAtCut(lines, lo, c, Cuts(lines, lo), Cuts(lines, c + 1));
    FlattenCons(SegmentDraft(lines, lo, c), Segments(lines, c + 1));
  }

  // ---------------------------------------------------------------------
  // Properties of parseCodeBlocks
  // ---------------------------------------------------------------------

  /** Each block's code splits back into its lines. */
  lemma {:induction false} RenderRoundTrip(d: Draft)
    requires |d.lines| > 0
    requires forall t :: t in d.lines ==> '\n' !in t
    ensures Split(Render(d).code, '\n') == d.lines
  {
    SplitJoin(d.lines, '\n');
  }

  /** The lines of all blocks, in order. */
  function BlockLines(bs: seq<CodeBlock>): seq<String> {
    if |bs| == 0 then [] else Split(bs[0].code, '\n') + BlockLines(bs[1..])
  }

  lemma {:induction false} BlockLinesRendered(ds: seq<Draft>)
    requires forall d :: d in ds ==> |d.lines| > 0 && forall t :: t in d.lines ==> '\n' !in t
    ensures BlockLines(RenderAll(ds)) == Flatten(ds)
  {
    if |ds| > 0 {
      RenderRoundTrip(ds[0]);
      BlockLinesRendered(ds[1..]);
      assert RenderAll(ds)[1..] == RenderAll(ds[1..]);
    }
  }

  /** Parsing annotated lines gives at least one block, and the raw-text
      fallback exactly when every line is a marker. */
  lemma {:induction false} ParseLinesShape(lines: seq<Line>, code: String)
    ensures |ParseLines(lines, code)| >= 1
    ensures (forall k :: 0 <= k < |lines| ==> !lines[k].kind.Plain?)
            <==> ParseLines(lines, code) == [Fallback(code)]
  {
    ParseLinesMatchesSegments(lines, code);
    SegmentsEmptyIff(lines);
    var segs := Segments(lines, 0);
    if |segs| > 0 {
      assert ParseLines(lines, code)[0].title.Some?;
    }
  }

  /** Over annotated lines free of newlines that hold some code: the blocks'
      lines, concatenated in order, are the code lines minus the separators,
      and every block line is the text of a code line. */
  lemma {:induction false} ParseLinesPreserveCode(lines: seq<Line>, code: String)
    requires forall k :: 0 <= k < |lines| ==> '\n' !in lines[k].text
    requires exists k :: 0 <= k < |lines| && lines[k].kind.Plain?
    ensures BlockLines(ParseLines(lines, code)) == Kept(lines, 0, |lines|, Cuts(lines, 0))
    ensures forall b, t :: b in ParseLines(lines, code) && t in Split(b.code, '\n') ==> IsCodeText(lines, t)
  {
    ParseLinesMatchesSegments(lines, code);
    SegmentsEmptyIff(lines);
    SegmentsAreCode(lines, 0);
    CodeTextsNewlineFree(Segments(lines, 0), lines);
    BlockLinesRendered(Segments(lines, 0));
    FlattenSegments(lines, 0);
    RenderedLinesAreCode(Segments(lines, 0), lines);
  }

  lemma {:induction false} CodeTextsNewlineFree(ds: seq<Draft>, lines: seq<Line>)
    requires forall k :: 0 <= k < |lines| ==> '\n' !in lines[k].text
    requires forall d :: d in ds ==> |d.lines| > 0 && forall t :: t in d.lines ==> IsCodeText(lines, t)
    ensures forall d :: d in ds ==> |d.lines| > 0 && forall t :: t in d.lines ==> '\n' !in t && IsCodeText(lines, t)
  {
    forall d, t | d in ds && t in d.lines ensures '\n' !in t {
      assert IsCodeText(lines, t);
    }
  }

  lemma {:induction false} RenderedLinesAreCode(ds: seq<Draft>, lines: seq<Line>)
    requires forall d :: d in ds ==> |d.lines| > 0 && forall t :: t in d.lines ==> '\n' !in t && IsCodeText(lines, t)
    ensures forall b, t :: b in RenderAll(ds) && t in Split(b.code, '\n') ==> IsCodeText(lines, t)
  {
    var bs := RenderAll(ds);
    forall b, t | b in bs && t in Split(b.code, '\n') ensures IsCodeText(lines, t) {
      var k :| 0 <= k < |bs| && bs[k] == b;
      assert ds[k] in ds;
      RenderRoundTrip(ds[k]);
    }
  }

  lemma {:induction false} AnnotateAllIsAnnotate(ps: seq<String>)
    ensures forall k :: 0 <= k < |ps| ==> AnnotateAll(ps)[k] == Annotate(ps[k])
  {
    if |ps| > 0 {
      AnnotateAllIsAnnotate(ps[1..]);
    }
  }

  /** The annotated lines of a text are its newline-free pieces, and a line
      is code exactly when its piece is not a marker. */
  lemma {:induction false} LinesOfCode(code: String)
    ensures |Lines(code)| == |Split(code, '\n')|
    ensures forall k :: 0 <= k < |Lines(code)| ==>
              && Lines(code)[k].text == Split(code, '\n')[k]
              && '\n' !in Lines(code)[k].text
              && (Lines(code)[k].kind.Plain? <==> !IsMarker(Split(code, '\n')[k]))
  {
    var ps := Split(code, '\n');
    var lines := Lines(code);
    AnnotateAllIsAnnotate(ps);
    forall k | 0 <= k < |lines|
      ensures lines[k].text == ps[k] && '\n' !in lines[k].text
      ensures lines[k].kind.Plain? <==> !IsMarker(ps[k])
    {
      assert lines[k] == Annotate(ps[k]);
    }
  }

  /** Any non-empty text gives at least one block, and the raw-text fallback
      happens exactly when every line of the text is a marker. */
  lemma {:induction false} ParseShape(code: String)
    requires code != []
    ensures |ParseCodeBlocks(code)| >= 1
    ensures var ps := Split(code, '\n');
            (forall k :: 0 <= k < |ps| ==> IsMarker(ps[k])) <==> ParseCodeBlocks(code) == [Fallback(code)]
  {
    var lines := Lines(code);
    var ps := Split(code, '\n');
    ParseLinesShape(lines, code);
    LinesOfCode(code);
    if forall k :: 0 <= k < |ps| ==> IsMarker(ps[k]) {
      assert forall k :: 0 <= k < |lines| ==> !lines[k].kind.Plain?;
    } else {
      var k :| 0 <= k < |ps| && !IsMarker(ps[k]);
      assert lines[k].kind.Plain?;
    }
  }

  /** When some line is not a marker, the blocks' lines, concatenated in
      order, are the input's non-marker lines minus the dropped separator
      lines, and no block line is a marker. */
  lemma {:induction false} ParsePreservesCode(code: String)
    requires code != []
    requires var ps := Split(code, '\n'); exists k :: 0 <= k < |ps| && !IsMarker(ps[k])
    ensures var lines := Lines(code);
            BlockLines(ParseCodeBlocks(code)) == Kept(lines, 0, |lines|, Cuts(lines, 0))
    ensures forall b, t :: b in ParseCodeBlocks(code) && t in Split(b.code, '\n') ==> !IsMarker(t)
  {
    var lines := Lines(code);
    var ps := Split(code, '\n');
    LinesOfCode(code);
    var k :| 0 <= k < |ps| && !IsMarker(ps[k]);
    assert lines[k].kind.Plain?;
    ParseLinesPreserveCode(lines, code);
    forall b, t | b in ParseCodeBlocks(code) && t in Split(b.code, '\n') ensures !IsMarker(t) {
      assert IsCodeText(lines, t);
      var j :| 0 <= j < |lines| && lines[j].text == t && lines[j].kind.Plain?;
    }
  }
}
