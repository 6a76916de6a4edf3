/** The SubRip (SRT) document codec: `create_srt_file` writes one numbered
    block per transcription segment, `parse_srt_file` reads blocks back,
    dropping those that do not look like cues and raising on a cue whose
    time line cannot be read. The file itself is left to the caller; here a
    document is the string that is written or read. */
module Srt {
  import opened Strings
  import opened Timecode

  /** A transcription segment: start and end in milliseconds, and its text. */
  datatype Segment = Segment(start: nat, end: nat, text: string)

  /** The separator between the two timecodes of a cue's time line. */
  const Arrow: string := " --> "

  function TimeLine(start: nat, end: nat): string {
    FormatTime(start) + Arrow + FormatTime(end)
  }

  /** The i-th block without its closing blank line: the index, the time
      line and the stripped text, one per line. */
  function Entry(i: nat, seg: Segment): string {
    Decimal(i) + "\n" + TimeLine(seg.start, seg.end) + "\n" + Strip(seg.text)
  }

  function Block(i: nat, seg: Segment): string {
    Entry(i, seg) + "\n\n"
  }

  /** The document create_srt_file writes: the blocks of the segments in
      input order, numbered from 1. */
  function Document(segs: seq<Segment>): string
  {
    if segs == [] then "" else Document(segs[..|segs| - 1]) + Block(|segs|, segs[|segs| - 1])
  }

  /** create_srt_file's loop: one block appended per segment. */
  method WriteSrt(segs: seq<Segment>) returns (out: string)
    ensures out == Document(segs)
  {
    out := "";
    var i := 0;
    while i < |segs|
      invariant 0 <= i <= |segs|
      invariant out == Document(segs[..i])
    {
      DocumentStep(segs, i);
      out := out + Block(i + 1, segs[i]);
      i := i + 1;
    }
    assert segs[..|segs|] == segs;
  }

  lemma DocumentStep(segs: seq<Segment>, i: nat)
    requires i < |segs|
    ensures Document(segs[..i + 1]) == Document(segs[..i]) + (Entry(i + 1, segs[i]) + "\n\n")
  {
    assert segs[..i + 1][..i] == segs[..i];
  }

  function Entries(segs: seq<Segment>): (r: seq<string>)
    ensures |r| == |segs|
  {
    seq(|segs|, k requires 0 <= k < |segs| => Entry(k + 1, segs[k]))
  }

  /** A document is its blocks joined by blank lines, with a closing blank line. */
  lemma {:induction false} DocumentEntries(segs: seq<Segment>)
    requires segs != []
    ensures Document(segs) == Join("\n\n", Entries(segs)) + "\n\n"
    decreases |segs|
  {
    var n := |segs|;
    var prefix := segs[..n - 1];
    DocumentStep(segs, n - 1);
    assert segs[..n] == segs;
    EntriesSnoc(segs);
    if n > 1 {
      DocumentEntries(prefix);
    }
    JoinClosed(Document(prefix), Entries(prefix), Entry(n, segs[n - 1]), "\n\n");
  }

  /** Appending a closed piece to a closed join gives the closed join of one more part. */
  lemma JoinClosed(doc: string, parts: seq<string>, last: string, sep: string)
    requires parts == [] ==> doc == []
    requires parts != [] ==> doc == Join(sep, parts) + sep
    ensures doc + (last + sep) == Join(sep, parts + [last]) + sep
  {
    if parts == [] {
      assert parts + [last] == [last];
    } else {
      JoinAppend(sep, parts, last);
    }
  }

  lemma EntriesSnoc(segs: seq<Segment>)
    requires segs != []
    ensures Entries(segs) == Entries(segs[..|segs| - 1]) + [Entry(|segs|, segs[|segs| - 1])]
  {
  }

  // ---------------------------------------------------------------------
  // Reading

  /** One block of parse_srt_file's loop. A block with at least three lines
      whose second line contains the arrow is a cue: the line must split
      into exactly two timecodes, each of which must parse, and the text is
      the remaining lines. Any other block is skipped (None). */
  function ParseBlock(block: string): Result<Option<Segment>>
  {
    var lines := Split(Strip(block), "\n");
    if |lines| >= 3 && Contains(lines[1], Arrow) then
      var halves := Split(lines[1], Arrow);
      if |halves| != 2 then Err("too many values to unpack (expected 2)")
      else
        var start :- ParseTimeString(halves[0]);
        var end :- ParseTimeString(halves[1]);
        Ok(Some(Segment(start, end, Join("\n", lines[2..]))))
    else Ok(None)
  }

  /** The blocks read in order; the first block that raises ends the parse. */
  function ParseBlocks(blocks: seq<string>): Result<seq<Segment>>
  {
    if blocks == [] then Ok([])
    else
      var earlier :- ParseBlocks(blocks[..|blocks| - 1]);
      var cue :- ParseBlock(blocks[|blocks| - 1]);
      Ok(earlier + (if cue.Some? then [cue.value] else []))
  }

  /** parse_srt_file on the file's content: strip it, split it at blank lines. */
  function ParseSrt(content: string): Result<seq<Segment>>
  {
    ParseBlocks(Split(Strip(content), "\n\n"))
  }

  /** parse_srt_file's loop, appending one cue per kept block. */
  method ReadSrt(content: string) returns (r: Result<seq<Segment>>)
    ensures r == ParseSrt(content)
  {
    var blocks := Split(Strip(content), "\n\n");
    var subtitles: seq<Segment> := [];
    var i := 0;
    while i < |blocks|
      invariant 0 <= i <= |blocks|
      invariant ParseBlocks(blocks[..i]) == Ok(subtitles)
    {
      var cue := ParseBlock(blocks[i]);
      ParseBlocksStep(blocks, i, subtitles, cue);
      if cue.Err? {
        ParseBlocksErrorSticks(blocks, i + 1);
        return Err(cue.msg);
      }
      if cue.value.Some? {
        subtitles := subtitles + [cue.value.value];
      }
      i := i + 1;
    }
    assert blocks[..|blocks|] == blocks;
    r := Ok(subtitles);
  }

  /** One more block read: it raises, is skipped, or adds its cue at the end. */
  lemma ParseBlocksStep(blocks: seq<string>, i: nat, earlier: seq<Segment>, cue: Result<Option<Segment>>)
    requires i < |blocks| && ParseBlocks(blocks[..i]) == Ok(earlier) && cue == ParseBlock(blocks[i])
    ensures cue.Err? ==> ParseBlocks(blocks[..i + 1]) == Err(cue.msg)
    ensures cue.Ok? && cue.value.None? ==> ParseBlocks(blocks[..i + 1]) == Ok(earlier)
    ensures cue.Ok? && cue.value.Some? ==> ParseBlocks(blocks[..i + 1]) == Ok(earlier + [cue.value.value])
  {
    var bs := blocks[..i + 1];
    assert bs[..i] == blocks[..i] && bs[i] == blocks[i];
    if cue.Ok? {
      ParseBlocksLast(bs, earlier);
      assert earlier + [] == earlier;
    }
  }

  /** Once a prefix of the blocks raises, the whole parse raises with that error. */
  lemma {:induction false} ParseBlocksErrorSticks(blocks: seq<string>, n: nat)
    requires n <= |blocks| && ParseBlocks(blocks[..n]).Err?
    ensures ParseBlocks(blocks) == ParseBlocks(blocks[..n])
    decreases |blocks| - n
  {
    if n == |blocks| {
      assert blocks[..n] == blocks;
    } else {
      assert blocks[..n + 1][..n] == blocks[..n];
      ParseBlocksErrorSticks(blocks, n + 1);
    }
  }

  /** Parsing is compositional: the cues of `a + b` are the cues of `a`
      followed by the cues of `b`, unless one of them raises, and then the
      first error (in `a` before `b`) is the result. */
  lemma {:induction false} ParseBlocksAppend(a: seq<string>, b: seq<string>)
    ensures ParseBlocks(a).Err? ==> ParseBlocks(a + b) == ParseBlocks(a)
    ensures ParseBlocks(a).Ok? && ParseBlocks(b).Err? ==> ParseBlocks(a + b) == ParseBlocks(b)
    ensures ParseBlocks(a).Ok? && ParseBlocks(b).Ok? ==>
      ParseBlocks(a + b) == Ok(ParseBlocks(a).value + ParseBlocks(b).value)
    decreases |b|
  {
    if b == [] {
      assert a + b == a;
      if ParseBlocks(a).Ok? {
        assert ParseBlocks(a).value + [] == ParseBlocks(a).value;
      }
    } else {
      var b' := b[..|b| - 1];
      assert (a + b)[..|a + b| - 1] == a + b';
      assert (a + b)[|a + b| - 1] == b[|b| - 1];
      ParseBlocksAppend(a, b');
      if ParseBlocks(a).Ok? && ParseBlocks(b').Ok? && ParseBlock(b[|b| - 1]).Ok? {
        var c := ParseBlock(b[|b| - 1]).value;
        var tail := if c.Some? then [c.value] else [];
        assert ParseBlocks(a).value + ParseBlocks(b').value + tail
            == ParseBlocks(a).value + (ParseBlocks(b').value + tail);
      }
    }
  }

  // ---------------------------------------------------------------------
  // The anatomy of a cue block

  /** No newline and no space: a line the arrow or a newline cannot cut. */
  predicate Plain(s: string) {
    forall i :: 0 <= i < |s| ==> s[i] != '\n' && s[i] != ' '
  }

  /** An index line: not empty, not led by a space, and a single line. */
  predicate IndexLine(idx: string) {
    idx != [] && !IsSpace(idx[0]) && NoChar(idx, '\n')
  }

  /** The parts of a cue block that reads back as a cue: an index line,
      two plain timecodes for `start` and `end`, and a text that ends in
      something other than white space. */
  predicate CueParts(idx: string, x: string, y: string, text: string, start: nat, end: nat) {
    && IndexLine(idx) && Plain(x) && Plain(y)
    && text != [] && !IsSpace(text[|text| - 1])
    && ParseTimeString(x) == Ok(start) && ParseTimeString(y) == Ok(end)
  }

  /** A block `idx`, `x --> y`, `text` (text possibly several lines) is its
      own strip() and splits into the index line, the time line and the
      text's lines; the time line splits at its one arrow. */
  lemma CueLines(idx: string, x: string, y: string, text: string)
    requires IndexLine(idx)
    requires Plain(x) && Plain(y)
    requires text != [] && !IsSpace(text[|text| - 1])
    ensures var block := idx + "\n" + (x + Arrow + y) + "\n" + text;
      var lines := Split(block, "\n");
      && Strip(block) == block
      && |lines| >= 3 && lines[0] == idx && lines[1] == x + Arrow + y && lines[2..] == Split(text, "\n")
    ensures Contains(x + Arrow + y, Arrow)
    ensures var halves := Split(x + Arrow + y, Arrow); |halves| == 2 && halves[0] == x && halves[1] == y
  {
    ThreeLines(idx, x + Arrow + y, text);
    ArrowSplit(x, y);
  }

  /** Lines `a`, `b`, `text` joined by newlines, with `a` and `b` free of
      newlines, are their own strip() and split back into `a`, `b` and the
      lines of `text`. */
  lemma ThreeLines(a: string, b: string, text: string)
    requires a != [] && !IsSpace(a[0]) && forall i :: 0 <= i < |a| ==> a[i] != '\n'
    requires forall i :: 0 <= i < |b| ==> b[i] != '\n'
    requires text != [] && !IsSpace(text[|text| - 1])
    ensures var block := a + "\n" + b + "\n" + text;
      var lines := Split(block, "\n");
      && Strip(block) == block
      && |lines| >= 3 && lines[0] == a && lines[1] == b && lines[2..] == Split(text, "\n")
  {
    var block := a + "\n" + b + "\n" + text;
    assert block[0] == a[0] && block[|block| - 1] == text[|text| - 1];
    StripIdentity(block);
    ThreeLinesSplit(a, b, text);
  }

  lemma ThreeLinesSplit(a: string, b: string, text: string)
    requires forall i :: 0 <= i < |a| ==> a[i] != '\n'
    requires forall i :: 0 <= i < |b| ==> b[i] != '\n'
    ensures var lines := Split(a + "\n" + b + "\n" + text, "\n");
      |lines| >= 3 && lines[0] == a && lines[1] == b && lines[2..] == Split(text, "\n")
  {
    UnbrokenByFirstChar(a, "\n");
    UnbrokenByFirstChar(b, "\n");
    var tail := b + "\n" + text;
    SplitHead(b, text, "\n");
    SplitHead(a, tail, "\n");
    assert a + "\n" + b + "\n" + text == a + "\n" + tail;
    var lines := Split(a + "\n" + tail, "\n");
    assert lines[2..] == lines[1..][1..];
  }

  /** A time line `x --> y` with plain timecodes contains the arrow once. */
  lemma ArrowSplit(x: string, y: string)
    requires Plain(x) && Plain(y)
    ensures Contains(x + Arrow + y, Arrow)
    ensures var halves := Split(x + Arrow + y, Arrow); |halves| == 2 && halves[0] == x && halves[1] == y
  {
    var mid := x + Arrow + y;
    assert mid[|x|..|x| + |Arrow|] == Arrow;
    assert MatchAt(mid, Arrow, |x|);
    UnbrokenByFirstChar(x, Arrow);
    UnbrokenByFirstChar(y, Arrow);
    UnbrokenNoMatch(y, Arrow);
    SplitWhole(y, Arrow);
    SplitHead(x, y, Arrow);
  }

  /** A cue block whose timecodes parse becomes a segment with those times
      and the text; the index line is never looked at. */
  lemma ParseCue(idx: string, x: string, y: string, text: string, start: nat, end: nat)
    requires CueParts(idx, x, y, text, start, end)
    ensures ParseBlock(idx + "\n" + (x + Arrow + y) + "\n" + text) == Ok(Some(Segment(start, end, text)))
  {
    CueLines(idx, x, y, text);
    JoinSplit(text, "\n");
  }

  /** A cue block whose start or end timecode does not parse makes the
      block raise; it is not skipped. */
  lemma BadTimecodeRaises(idx: string, x: string, y: string, text: string)
    requires IndexLine(idx)
    requires Plain(x) && Plain(y)
    requires text != [] && !IsSpace(text[|text| - 1])
    requires ParseTimeString(x).Err? || ParseTimeString(y).Err?
    ensures ParseBlock(idx + "\n" + (x + Arrow + y) + "\n" + text).Err?
  {
    CueLines(idx, x, y, text);
  }

  /** A time line with a second arrow makes the block raise: the line
      splits into more than the two timecodes. */
  lemma SecondArrowRaises(idx: string, x: string, y: string, z: string, text: string)
    requires IndexLine(idx)
    requires Plain(x) && Plain(y) && Plain(z)
    requires text != [] && !IsSpace(text[|text| - 1])
    ensures ParseBlock(idx + "\n" + (x + Arrow + (y + Arrow + z)) + "\n" + text).Err?
  {
    var yz := y + Arrow + z;
    var mid := x + Arrow + yz;
    ThreeLines(idx, mid, text);
    assert mid[|x|..|x| + |Arrow|] == Arrow;
    assert MatchAt(mid, Arrow, |x|);
    UnbrokenByFirstChar(x, Arrow);
    SplitHead(x, yz, Arrow);
    assert yz[|y|..|y| + |Arrow|] == Arrow;
    assert MatchAt(yz, Arrow, |y|);
    SplitCount(yz, Arrow);
  }

  /** A block of fewer than three lines is skipped: once stripped it is one
      line `a`, or two lines `a` and `b`. */
  lemma ShortBlockSkipped(block: string, a: string, b: string)
    requires NoChar(a, '\n') && NoChar(b, '\n')
    requires Strip(block) == a || Strip(block) == a + "\n" + b
    ensures ParseBlock(block) == Ok(None)
  {
    UnbrokenByFirstChar(a, "\n");
    UnbrokenNoMatch(a, "\n");
    SplitWhole(a, "\n");
    if Strip(block) != a {
      UnbrokenByFirstChar(b, "\n");
      UnbrokenNoMatch(b, "\n");
      SplitWhole(b, "\n");
      SplitAfter(a, b, "\n");
    }
  }
  /** A block of three or more lines whose second line holds no ` --> ` is
      skipped: once stripped it is a line `a`, a line `b` and the rest `c`. */
  lemma NoArrowSkipped(block: string, a: string, b: string, c: string)
    requires NoChar(a, '\n') && NoChar(b, '\n') && !Contains(b, Arrow)
    requires Strip(block) == a + "\n" + b + "\n" + c
    ensures ParseBlock(block) == Ok(None)
  {
    UnbrokenByFirstChar(a, "\n");
    UnbrokenByFirstChar(b, "\n");
    SplitHead(b, c, "\n");
    assert a + "\n" + b + "\n" + c == a + "\n" + (b + "\n" + c);
    SplitHead(a, b + "\n" + c, "\n");
  }

  // ---------------------------------------------------------------------
  // Writing then reading

  /** A segment whose text survives the trip: something is left after
      strip(), and it holds no blank line that would end the block early. */
  predicate Printable(seg: Segment) {
    Strip(seg.text) != [] && !Contains(Strip(seg.text), "\n\n")
  }

  /** What a segment looks like once written: its text stripped. */
  function Normalized(segs: seq<Segment>): (r: seq<Segment>)
    ensures |r| == |segs|
  {
    seq(|segs|, k requires 0 <= k < |segs| => Segment(segs[k].start, segs[k].end, Strip(segs[k].text)))
  }

  /** A formatted timecode is plain and parses back to its time. */
  lemma TimecodeFacts(t: nat)
    ensures Plain(FormatTime(t)) && ParseTimeString(FormatTime(t)) == Ok(t)
    ensures var x := FormatTime(t); x != [] && !IsSpace(x[|x| - 1])
  {
    FormatTimeShape(t);
    TimecodeRoundTrip(t);
  }

  /** The written block of a printable segment reads back as that segment
      with its text stripped. */
  lemma EntryParses(i: nat, seg: Segment)
    requires Printable(seg)
    ensures ParseBlock(Entry(i, seg)) == Ok(Some(Segment(seg.start, seg.end, Strip(seg.text))))
  {
    EntryParts(i, seg);
    ParseCue(Decimal(i), FormatTime(seg.start), FormatTime(seg.end), Strip(seg.text), seg.start, seg.end);
  }

  /** The parts of a printable segment's block are what ParseCue asks for. */
  lemma EntryParts(i: nat, seg: Segment)
    requires Printable(seg)
    ensures CueParts(Decimal(i), FormatTime(seg.start), FormatTime(seg.end), Strip(seg.text), seg.start, seg.end)
  {
    TimecodeFacts(seg.start);
    TimecodeFacts(seg.end);
    StripEnds(seg.text);
    var idx := Decimal(i);
    assert IsDigit(idx[0]);
  }

  /** A block that strip() leaves alone and that holds no blank line. */
  predicate Closed(b: string) {
    b != [] && !IsSpace(b[0]) && !IsSpace(b[|b| - 1]) && Unbroken(b, "\n\n")
  }

  /** A cue block with newline-free index and time line and a text without
      a blank line holds no blank line, and starts and ends non-blank. */
  lemma CueShape(idx: string, x: string, y: string, text: string)
    requires IndexLine(idx)
    requires Plain(x) && Plain(y)
    requires text != [] && !IsSpace(text[0]) && !IsSpace(text[|text| - 1]) && NoDouble(text, '\n')
    ensures Closed(idx + "\n" + (x + Arrow + y) + "\n" + text)
  {
    var line := x + Arrow + y;
    assert forall i :: 0 <= i < |line| ==> line[i] != '\n' by {
      forall i | 0 <= i < |line| ensures line[i] != '\n' {
        if i < |x| { assert line[i] == x[i]; }
        else if i < |x| + |Arrow| { assert line[i] == Arrow[i - |x|]; }
        else { assert line[i] == y[i - |x| - |Arrow|]; }
      }
    }
    assert line[0] != '\n' by { assert |line| > 0; }
    var tail := line + "\n" + text;
    NoDoubleGlue(line, text, '\n');
    assert tail[0] != '\n';
    NoDoubleGlue(idx, tail, '\n');
    var e := idx + "\n" + (x + Arrow + y) + "\n" + text;
    assert e == idx + "\n" + tail;
    assert e[|e| - 1] == text[|text| - 1];
    UnbrokenPair(e, '\n');
  }

  /** The written block of a printable segment holds no blank line, starts
      with a digit and ends with the text's last, non-blank, character. */
  lemma EntryShape(i: nat, seg: Segment)
    requires Printable(seg)
    ensures Closed(Entry(i, seg))
  {
    var text := Strip(seg.text);
    StripEnds(seg.text);
    NoDoubleContains(text, '\n');
    TimecodeFacts(seg.start);
    TimecodeFacts(seg.end);
    var idx := Decimal(i);
    assert IsDigit(idx[0]);
    CueShape(idx, FormatTime(seg.start), FormatTime(seg.end), text);
  }

  lemma NormalizedSnoc(segs: seq<Segment>)
    requires segs != []
    ensures var last := segs[|segs| - 1];
      Normalized(segs) == Normalized(segs[..|segs| - 1]) + [Segment(last.start, last.end, Strip(last.text))]
  {
  }

  /** Reading the blocks of printable segments gives the segments back. */
  lemma {:induction false} ParseEntries(segs: seq<Segment>)
    requires forall k :: 0 <= k < |segs| ==> Printable(segs[k])
    ensures ParseBlocks(Entries(segs)) == Ok(Normalized(segs))
    decreases |segs|
  {
    if segs != [] {
      var n := |segs|;
      var prefix := segs[..n - 1];
      var blocks := Entries(segs);
      EntriesSnoc(segs);
      assert blocks[..n - 1] == Entries(prefix);
      ParseEntries(prefix);
      EntryParses(n, segs[n - 1]);
      NormalizedSnoc(segs);
    }
  }

  /** Blocks that start and end non-blank and hold no blank line are cut
      apart again by strip() and split("\n\n") after being joined and
      closed with a blank line. */
  lemma {:induction false} SplitClosed(blocks: seq<string>)
    requires blocks != []
    requires forall k :: 0 <= k < |blocks| ==> Closed(blocks[k])
    ensures Split(Strip(Join("\n\n", blocks) + "\n\n"), "\n\n") == blocks
  {
    var body := Join("\n\n", blocks);
    JoinEnds("\n\n", blocks);
    assert [] + body + "\n\n" == body + "\n\n";
    StripPadded(body, [], "\n\n");
    SplitJoin(blocks, "\n\n");
  }

  /** An empty transcript writes an empty file, which reads back empty. */
  lemma EmptyRoundTrip()
    ensures ParseSrt(Document([])) == Ok([])
  {
    assert Document([]) == "";
    assert Strip("") == "";
    assert Split("", "\n\n") == [""];
    assert Split("", "\n") == [""];
    assert ParseBlock("") == Ok(None);
    assert [""][..0] == [];
    assert ParseBlocks([]) == Ok([]);
    var none: seq<Segment> := [];
    assert ParseBlocks([""]) == Ok(none + none);
    assert none + none == none;
    assert ParseSrt("") == Ok(none);
  }

  /** Every block written for printable segments is closed. */
  lemma EntriesClosed(segs: seq<Segment>)
    requires forall k :: 0 <= k < |segs| ==> Printable(segs[k])
    ensures forall k :: 0 <= k < |segs| ==> Closed(Entries(segs)[k])
  {
    forall k | 0 <= k < |segs|
      ensures Closed(Entries(segs)[k])
    {
      EntryShape(k + 1, segs[k]);
    }
  }

  /** A file made of closed blocks joined and closed by blank lines parses
      as those blocks. */
  lemma ParseClosed(doc: string, blocks: seq<string>)
    requires blocks != [] && doc == Join("\n\n", blocks) + "\n\n"
    requires forall k :: 0 <= k < |blocks| ==> Closed(blocks[k])
    ensures ParseSrt(doc) == ParseBlocks(blocks)
  {
    SplitClosed(blocks);
  }

  /** A cue written with nothing left of its text is two lines once
      stripped, so reading skips it. */
  lemma BlankCueSkipped(idx: string, x: string, y: string)
    requires IndexLine(idx)
    requires Plain(x) && Plain(y) && y != [] && !IsSpace(y[|y| - 1])
    ensures ParseBlock(idx + "\n" + (x + Arrow + y) + "\n" + [] + "\n\n") == Ok(None)
  {
    var line := x + Arrow + y;
    assert forall i :: 0 <= i < |line| ==> line[i] != '\n' by {
      forall i | 0 <= i < |line| ensures line[i] != '\n' {
        if i < |x| { assert line[i] == x[i]; }
        else if i < |x| + |Arrow| { assert line[i] == Arrow[i - |x|]; }
        else { assert line[i] == y[i - |x| - |Arrow|]; }
      }
    }
    var core := idx + "\n" + line;
    assert core[0] == idx[0] && core[|core| - 1] == y[|y| - 1];
    var block := idx + "\n" + (x + Arrow + y) + "\n" + [] + "\n\n";
    assert block == [] + core + "\n\n\n";
    StripPadded(core, [], "\n\n\n");
    ShortBlockSkipped(block, idx, line);
  }

  /** A segment whose text is all whitespace is written as a block with an
      empty text line; reading that block skips it. */
  lemma BlankSegmentSkipped(i: nat, seg: Segment)
    requires Strip(seg.text) == []
    ensures ParseBlock(Block(i, seg)) == Ok(None)
  {
    TimecodeFacts(seg.start);
    TimecodeFacts(seg.end);
    var idx := Decimal(i);
    assert IsDigit(idx[0]);
    BlankCueSkipped(idx, FormatTime(seg.start), FormatTime(seg.end));
  }

  /** parse_srt_file reads back what create_srt_file wrote, for segments
      whose text is printable: same starts, ends and stripped texts, in the
      same order. */
  lemma SrtRoundTrip(segs: seq<Segment>)
    requires forall k :: 0 <= k < |segs| ==> Printable(segs[k])
    ensures ParseSrt(Document(segs)) == Ok(Normalized(segs))
  {
    if segs == [] {
      EmptyRoundTrip();
    } else {
      DocumentEntries(segs);
      EntriesClosed(segs);
      ParseClosed(Document(segs), Entries(segs));
      ParseEntries(segs);
    }
  }

  // ---------------------------------------------------------------------
  // Documents with blank segments

  /** A segment whose text strip() empties. */
  predicate Blank(seg: Segment) {
    Strip(seg.text) == []
  }

  /** The printable segments, in order. */
  function Printables(segs: seq<Segment>): (r: seq<Segment>)
    ensures |r| <= |segs|
  {
    if segs == [] then []
    else
      var last := segs[|segs| - 1];
      assert segs == segs[..|segs| - 1] + [last];
      Printables(segs[..|segs| - 1]) + (if Printable(last) then [last] else [])
  }

  /** Only printable segments are kept, and a transcript without blank
      segments is kept whole. */
  lemma {:induction false} PrintablesKept(segs: seq<Segment>)
    ensures var r := Printables(segs);
      && (forall k :: 0 <= k < |r| ==> Printable(r[k]))
      && ((forall k :: 0 <= k < |segs| ==> Printable(segs[k])) ==> r == segs)
  {
    if segs != [] {
      var prefix := segs[..|segs| - 1];
      PrintablesKept(prefix);
      if forall k :: 0 <= k < |segs| ==> Printable(segs[k]) {
        assert forall k :: 0 <= k < |prefix| ==> Printable(prefix[k]) by {
          forall k | 0 <= k < |prefix| ensures Printable(prefix[k]) { assert prefix[k] == segs[k]; }
        }
        assert segs == prefix + [segs[|segs| - 1]];
      }
    }
  }

  /** The index and time lines of the i-th block. */
  function Head(i: nat, seg: Segment): string {
    Decimal(i) + "\n" + TimeLine(seg.start, seg.end)
  }

  /** The i-th block without the blank lines after it: the whole entry of a
      printable segment, and only the two head lines of a blank one. */
  function Core(i: nat, seg: Segment): string {
    if Blank(seg) then Head(i, seg) else Entry(i, seg)
  }

  /** What a block leaves after its closing blank line: the empty text line
      of a blank segment. */
  function Lead(seg: Segment): string {
    if Blank(seg) then "\n" else ""
  }

  /** The cores of a document's blocks, in order. */
  function Cores(segs: seq<Segment>): (r: seq<string>)
    ensures |r| == |segs|
  {
    seq(|segs|, k requires 0 <= k < |segs| => CoreOf(segs, k))
  }

  /** The core of the block of `segs[k]`, numbered k + 1. */
  function CoreOf(segs: seq<Segment>, k: nat): string
    requires k < |segs|
  {
    Core(k + 1, segs[k])
  }

  /** The leftovers of a document's blocks, in order. */
  function Leads(segs: seq<Segment>): (r: seq<string>)
    ensures |r| == |segs|
  {
    seq(|segs|, k requires 0 <= k < |segs| => Lead(segs[k]))
  }

  /** Blocks given by their cores and leftovers, written one after another:
      each core, a blank line, its leftover. */
  function Glue(cores: seq<string>, leads: seq<string>): string
    requires |cores| == |leads|
  {
    if cores == [] then []
    else Glue(cores[..|cores| - 1], leads[..|leads| - 1]) + (cores[|cores| - 1] + "\n\n" + leads[|leads| - 1])
  }

  /** What split("\n\n") cuts glued blocks into: each core after the
      leftover of the block before it. */
  function Shift(cores: seq<string>, leads: seq<string>): (r: seq<string>)
    requires |cores| == |leads|
    ensures |r| == |cores|
  {
    seq(|cores|, k requires 0 <= k < |cores| => (if k > 0 then leads[k - 1] else "") + cores[k])
  }

  lemma ShiftSnoc(cores: seq<string>, leads: seq<string>)
    requires |cores| == |leads| > 1
    ensures var n := |cores|;
      Shift(cores, leads) == Shift(cores[..n - 1], leads[..n - 1]) + [leads[n - 2] + cores[n - 1]]
  {
    var n := |cores|;
    var a := Shift(cores, leads);
    var b := Shift(cores[..n - 1], leads[..n - 1]) + [leads[n - 2] + cores[n - 1]];
    forall k | 0 <= k < n
      ensures a[k] == b[k]
    {
      if 0 < k < n - 1 {
        assert leads[..n - 1][k - 1] == leads[k - 1];
      }
    }
  }

  lemma Regroup(a: string, sep: string, p: string, c: string, l: string)
    ensures a + (sep + p) + (c + sep + l) == a + sep + (p + c) + (sep + l)
  {
  }

  /** Glued blocks are their shifted pieces joined by blank lines, then the
      last blank line and leftover. */
  lemma {:induction false} GlueShift(cores: seq<string>, leads: seq<string>)
    requires |cores| == |leads| > 0
    ensures Glue(cores, leads) == Join("\n\n", Shift(cores, leads)) + ("\n\n" + leads[|leads| - 1])
    decreases |cores|
  {
    var n := |cores|;
    if n == 1 {
      assert cores[..0] == [] && leads[..0] == [];
      assert Shift(cores, leads)[0] == "" + cores[0] == cores[0];
      assert Shift(cores, leads) == [cores[0]];
    } else {
      var cs, ls := cores[..n - 1], leads[..n - 1];
      GlueShift(cs, ls);
      ShiftSnoc(cores, leads);
      assert ls[n - 2] == leads[n - 2];
      JoinAppend("\n\n", Shift(cs, ls), leads[n - 2] + cores[n - 1]);
      Regroup(Join("\n\n", Shift(cs, ls)), "\n\n", leads[n - 2], cores[n - 1], leads[n - 1]);
    }
  }

  lemma TrailingNewline(h: string)
    ensures h + "\n" + [] + "\n\n" == h + "\n\n" + "\n"
  {
  }

  /** The written block of a segment is its core, a blank line and its leftover. */
  lemma BlockCore(i: nat, seg: Segment)
    ensures Block(i, seg) == Core(i, seg) + "\n\n" + Lead(seg)
  {
    if Blank(seg) {
      TrailingNewline(Head(i, seg));
    }
  }

  lemma CoresSnoc(segs: seq<Segment>)
    requires segs != []
    ensures var n := |segs|;
      && Cores(segs)[..n - 1] == Cores(segs[..n - 1]) && Cores(segs)[n - 1] == Core(n, segs[n - 1])
      && Leads(segs)[..n - 1] == Leads(segs[..n - 1]) && Leads(segs)[n - 1] == Lead(segs[n - 1])
  {
  }

  /** A document is its blocks' cores and leftovers glued. */
  lemma {:induction false} DocumentGlue(segs: seq<Segment>)
    ensures Document(segs) == Glue(Cores(segs), Leads(segs))
    decreases |segs|
  {
    if segs != [] {
      var n := |segs|;
      var prefix, last := segs[..n - 1], segs[n - 1];
      DocumentGlue(prefix);
      CoresSnoc(segs);
      BlockCore(n, last);
      assert Document(segs) == Document(prefix) + Block(n, last);
    }
  }

  /** The time line holds no newline and ends with a digit. */
  lemma TimeLinePlain(start: nat, end: nat)
    ensures var line := TimeLine(start, end);
      NoChar(line, '\n') && line != [] && line[0] != '\n' && !IsSpace(line[|line| - 1])
  {
    TimecodeFacts(start);
    TimecodeFacts(end);
    ArrowLine(FormatTime(start), FormatTime(end));
  }

  /** Two plain timecodes around the arrow make a line without newline. */
  lemma ArrowLine(x: string, y: string)
    requires Plain(x) && Plain(y) && y != [] && !IsSpace(y[|y| - 1])
    ensures var line := x + Arrow + y;
      NoChar(line, '\n') && line != [] && line[0] != '\n' && !IsSpace(line[|line| - 1])
  {
    var line := x + Arrow + y;
    forall j | 0 <= j < |line|
      ensures line[j] != '\n'
    {
      if j < |x| { assert line[j] == x[j]; }
      else if j < |x| + |Arrow| { assert line[j] == Arrow[j - |x|]; }
      else { assert line[j] == y[j - |x| - |Arrow|]; }
    }
    assert line[|line| - 1] == y[|y| - 1];
  }

  /** A core strip() leaves alone, without a blank line, not starting with a newline. */
  predicate ClosedCore(c: string) {
    Closed(c) && NoDouble(c, '\n') && c[0] != '\n'
  }

  lemma CoreClosed(i: nat, seg: Segment)
    requires Printable(seg) || Blank(seg)
    ensures ClosedCore(Core(i, seg))
  {
    if Blank(seg) {
      HeadClosed(i, seg);
    } else {
      EntryClosed(i, seg);
    }
  }

  lemma HeadClosed(i: nat, seg: Segment)
    ensures ClosedCore(Head(i, seg))
  {
    var idx := Decimal(i);
    assert IsDigit(idx[0]);
    var line := TimeLine(seg.start, seg.end);
    TimeLinePlain(seg.start, seg.end);
    NoDoubleGlue(idx, line, '\n');
    var h := Head(i, seg);
    assert h[|h| - 1] == line[|line| - 1];
    UnbrokenPair(h, '\n');
  }

  lemma EntryClosed(i: nat, seg: Segment)
    requires Printable(seg)
    ensures ClosedCore(Entry(i, seg))
  {
    var idx := Decimal(i);
    assert IsDigit(idx[0]);
    var e := Entry(i, seg);
    EntryShape(i, seg);
    UnbrokenNoMatch(e, "\n\n");
    assert !Contains(e, ['\n', '\n']);
    NoDoubleContains(e, '\n');
  }

  /** A closed core after at most one newline holds no blank line, and
      strip() gives back the core. */
  lemma PieceShape(lead: string, c: string)
    requires lead == "" || lead == "\n"
    requires ClosedCore(c)
    ensures Solid(lead + c) && Strip(lead + c) == c
    ensures lead == "" ==> !IsSpace((lead + c)[0])
  {
    assert lead + c + [] == lead + c;
    StripPadded(c, lead, []);
    NoDoubleGlue([], c, '\n');
    assert lead + c == if lead == "" then c else [] + ['\n'] + c;
    assert (lead + c)[|lead + c| - 1] == c[|c| - 1];
    UnbrokenPair(lead + c, '\n');
  }

  /** The k-th of shifted pieces: the leftover before it, then its core. */
  lemma ShiftPiece(cores: seq<string>, leads: seq<string>, k: nat, lead: string, core: string)
    requires |cores| == |leads| && k < |cores| && cores[k] == core
    requires k > 0 ==> lead == leads[k - 1]
    requires k == 0 ==> lead == ""
    ensures Shift(cores, leads)[k] == lead + core
  {
  }

  lemma CoreAt(segs: seq<Segment>, k: nat)
    requires k < |segs|
    ensures Cores(segs)[k] == CoreOf(segs, k)
  {
  }

  lemma LeadAt(segs: seq<Segment>, k: nat)
    requires k < |segs|
    ensures Leads(segs)[k] == Lead(segs[k]) && (Lead(segs[k]) == "" || Lead(segs[k]) == "\n")
  {
  }

  /** The leftover of the block before the k-th, if any. */
  function PrevLead(segs: seq<Segment>, k: nat): (lead: string)
    requires k < |segs|
    ensures lead == "" || lead == "\n"
  {
    if k > 0 then Lead(segs[k - 1]) else ""
  }

  lemma CoreOfClosed(segs: seq<Segment>, k: nat)
    requires k < |segs| && (Printable(segs[k]) || Blank(segs[k]))
    ensures ClosedCore(CoreOf(segs, k))
  {
    CoreClosed(k + 1, segs[k]);
  }

  /** The k-th piece of a document: the leftover of the block before, then the k-th core. */
  lemma PieceAt(segs: seq<Segment>, k: nat)
    requires k < |segs|
    ensures Shift(Cores(segs), Leads(segs))[k] == PrevLead(segs, k) + CoreOf(segs, k)
  {
    CoreAt(segs, k);
    if k > 0 {
      LeadAt(segs, k - 1);
    }
    ShiftPiece(Cores(segs), Leads(segs), k, PrevLead(segs, k), CoreOf(segs, k));
  }

  /** Each piece holds no blank line, and strip() gives back its core. */
  lemma PieceFacts(segs: seq<Segment>, k: nat)
    requires k < |segs| && (Printable(segs[k]) || Blank(segs[k]))
    ensures var p := Shift(Cores(segs), Leads(segs))[k]; Solid(p) && (k == 0 ==> !IsSpace(p[0]))
  {
    PieceAt(segs, k);
    CoreOfClosed(segs, k);
    PieceShape(PrevLead(segs, k), CoreOf(segs, k));
  }

  /** A piece split("\n\n") keeps whole: non-empty, without a blank line,
      ending with a non-space. */
  predicate Solid(p: string) {
    p != [] && Unbroken(p, "\n\n") && !IsSpace(p[|p| - 1])
  }

  /** Solid pieces, the first starting with a non-space. */
  predicate Splittable(pieces: seq<string>) {
    && pieces != []
    && (forall k :: 0 <= k < |pieces| ==> Solid(pieces[k]))
    && !IsSpace(pieces[0][0])
  }

  /** Pieces joined by blank lines, then a whitespace tail: strip() and
      split("\n\n") give the pieces back. */
  lemma SplitGlued(pieces: seq<string>, tail: string)
    requires Splittable(pieces)
    requires forall i :: 0 <= i < |tail| ==> IsSpace(tail[i])
    ensures Split(Strip(Join("\n\n", pieces) + tail), "\n\n") == pieces
  {
    var body := Join("\n\n", pieces);
    JoinEnds("\n\n", pieces);
    assert [] + body + tail == body + tail;
    StripPadded(body, [], tail);
    SplitJoin(pieces, "\n\n");
  }

  predicate Newlines(s: string) {
    forall i :: 0 <= i < |s| ==> s[i] == '\n'
  }

  /** Glued blocks whose last leftover is newlines split back into their
      shifted pieces. */
  lemma GlueSplits(cores: seq<string>, leads: seq<string>)
    requires |cores| == |leads| > 0 && Splittable(Shift(cores, leads))
    requires Newlines(leads[|leads| - 1])
    ensures Split(Strip(Glue(cores, leads)), "\n\n") == Shift(cores, leads)
  {
    GlueShift(cores, leads);
    var tail := "\n\n" + leads[|leads| - 1];
    assert forall i :: 0 <= i < |tail| ==> tail[i] == '\n';
    SplitGlued(Shift(cores, leads), tail);
  }

  lemma PiecesSplittable(segs: seq<Segment>)
    requires segs != []
    requires forall k :: 0 <= k < |segs| ==> Printable(segs[k]) || Blank(segs[k])
    ensures Splittable(Shift(Cores(segs), Leads(segs)))
  {
    var pieces := Shift(Cores(segs), Leads(segs));
    forall k | 0 <= k < |segs|
      ensures Solid(pieces[k])
    {
      PieceFacts(segs, k);
    }
    PieceFacts(segs, 0);
  }

  lemma LastLead(segs: seq<Segment>)
    requires segs != []
    ensures Newlines(Leads(segs)[|segs| - 1])
  {
    LeadAt(segs, |segs| - 1);
  }

  /** Stripping a document and splitting it at blank lines gives its pieces. */
  lemma SplitPieces(segs: seq<Segment>)
    requires segs != []
    requires forall k :: 0 <= k < |segs| ==> Printable(segs[k]) || Blank(segs[k])
    ensures Split(Strip(Document(segs)), "\n\n") == Shift(Cores(segs), Leads(segs))
  {
    PiecesSplittable(segs);
    LastLead(segs);
    DocumentGlue(segs);
    GlueSplits(Cores(segs), Leads(segs));
  }

  /** A block is read as what strip() leaves of it. */
  lemma ParseStripped(block: string, c: string)
    requires Strip(block) == c && Strip(c) == c
    ensures ParseBlock(block) == ParseBlock(c)
  {
  }

  /** The piece of a printable segment reads back as that segment, stripped;
      the piece of a blank one is skipped. */
  lemma PieceParses(lead: string, i: nat, seg: Segment)
    requires lead == "" || lead == "\n"
    requires Printable(seg) || Blank(seg)
    ensures ParseBlock(lead + Core(i, seg))
         == Ok(if Printable(seg) then Some(Segment(seg.start, seg.end, Strip(seg.text))) else None)
  {
    if Blank(seg) {
      BlankPieceSkipped(lead, i, seg);
    } else {
      PrintablePieceParses(lead, i, seg);
    }
  }

  lemma BlankPieceSkipped(lead: string, i: nat, seg: Segment)
    requires lead == "" || lead == "\n"
    requires Blank(seg)
    ensures ParseBlock(lead + Core(i, seg)) == Ok(None)
  {
    var h := Head(i, seg);
    HeadClosed(i, seg);
    PieceShape(lead, h);
    TimeLinePlain(seg.start, seg.end);
    ShortBlockSkipped(lead + h, Decimal(i), TimeLine(seg.start, seg.end));
  }

  lemma PrintablePieceParses(lead: string, i: nat, seg: Segment)
    requires lead == "" || lead == "\n"
    requires Printable(seg)
    ensures ParseBlock(lead + Core(i, seg)) == Ok(Some(Segment(seg.start, seg.end, Strip(seg.text))))
  {
    var e := Entry(i, seg);
    EntryClosed(i, seg);
    PieceShape(lead, e);
    StripIdentity(e);
    ParseStripped(lead + e, e);
    EntryParses(i, seg);
  }

  /** The piece of `segs[k]` after a leftover reads as `segs[k]` stripped,
      or is skipped when it is blank. */
  lemma PieceOfParses(lead: string, segs: seq<Segment>, k: nat)
    requires lead == "" || lead == "\n"
    requires k < |segs| && (Printable(segs[k]) || Blank(segs[k]))
    ensures ParseBlock(lead + CoreOf(segs, k))
         == Ok(if Printable(segs[k]) then Some(Segment(segs[k].start, segs[k].end, Strip(segs[k].text))) else None)
  {
    PieceParses(lead, k + 1, segs[k]);
  }

  lemma NormalizedAppend(a: seq<Segment>, b: seq<Segment>)
    ensures Normalized(a + b) == Normalized(a) + Normalized(b)
  {
    var l, r := Normalized(a + b), Normalized(a) + Normalized(b);
    forall k | 0 <= k < |a| + |b|
      ensures l[k] == r[k]
    {
      if k < |a| { assert (a + b)[k] == a[k]; } else { assert (a + b)[k] == b[k - |a|]; }
    }
  }

  /** The kept segments grow by the last one exactly when it is printable. */
  lemma PrintablesSnoc(segs: seq<Segment>)
    requires segs != []
    ensures var n := |segs|; var kept := Normalized(Printables(segs[..n - 1])); var last := segs[n - 1];
      Normalized(Printables(segs))
        == kept + (if Printable(last) then [Segment(last.start, last.end, Strip(last.text))] else [])
  {
    var n := |segs|;
    var last := segs[n - 1];
    var kept := Printables(segs[..n - 1]);
    if Printable(last) {
      assert Printables(segs) == kept + [last];
      NormalizedAppend(kept, [last]);
      assert Normalized([last]) == [Segment(last.start, last.end, Strip(last.text))];
    } else {
      assert Printables(segs) == kept + [];
      assert kept + [] == kept;
    }
  }

  lemma ShiftPrefix(cores: seq<string>, leads: seq<string>, cs: seq<string>, ls: seq<string>)
    requires |cores| == |leads| > 0
    requires cs == cores[..|cores| - 1] && ls == leads[..|leads| - 1]
    ensures Shift(cores, leads)[..|cores| - 1] == Shift(cs, ls)
  {
  }

  /** The pieces of a document less its last segment are the first pieces. */
  lemma PiecesPrefix(segs: seq<Segment>)
    requires segs != []
    ensures var n := |segs|;
      Shift(Cores(segs), Leads(segs))[..n - 1] == Shift(Cores(segs[..n - 1]), Leads(segs[..n - 1]))
  {
    CoresSnoc(segs);
    ShiftPrefix(Cores(segs), Leads(segs), Cores(segs[..|segs| - 1]), Leads(segs[..|segs| - 1]));
  }

  /** The last piece of a document reads as its last segment, stripped, or
      is skipped when that segment is blank. */
  lemma LastPieceParses(segs: seq<Segment>)
    requires segs != []
    requires Printable(segs[|segs| - 1]) || Blank(segs[|segs| - 1])
    ensures var last := segs[|segs| - 1];
      ParseBlock(Shift(Cores(segs), Leads(segs))[|segs| - 1])
        == Ok(if Printable(last) then Some(Segment(last.start, last.end, Strip(last.text))) else None)
  {
    var n := |segs|;
    PieceAt(segs, n - 1);
    PieceOfParses(PrevLead(segs, n - 1), segs, n - 1);
  }

  /** The pieces parse to the printable segments, stripped. */
  lemma {:induction false} ParsePieces(segs: seq<Segment>)
    requires forall k :: 0 <= k < |segs| ==> Printable(segs[k]) || Blank(segs[k])
    ensures ParseBlocks(Shift(Cores(segs), Leads(segs))) == Ok(Normalized(Printables(segs)))
    decreases |segs|
  {
    var n := |segs|;
    var pieces := Shift(Cores(segs), Leads(segs));
    if n == 0 {
      assert pieces == [];
    } else {
      var prefix := segs[..n - 1];
      PiecesPrefix(segs);
      ParsePieces(prefix);
      LastPieceParses(segs);
      PrintablesSnoc(segs);
      ParseBlocksLast(pieces, Normalized(Printables(prefix)));
    }
  }

  /** Reading one more block after blocks that read without error. */
  lemma ParseBlocksLast(blocks: seq<string>, earlier: seq<Segment>)
    requires blocks != [] && ParseBlocks(blocks[..|blocks| - 1]) == Ok(earlier)
    requires ParseBlock(blocks[|blocks| - 1]).Ok?
    ensures var cue := ParseBlock(blocks[|blocks| - 1]).value;
      ParseBlocks(blocks) == Ok(earlier + if cue.Some? then [cue.value] else [])
  {
  }

  /** parse_srt_file on what create_srt_file wrote, when some segments are
      blank: the blank ones are dropped, and every other one comes back in
      order with its times and stripped text. */
  lemma BlankSegmentsDropped(segs: seq<Segment>)
    requires forall k :: 0 <= k < |segs| ==> Printable(segs[k]) || Blank(segs[k])
    ensures ParseSrt(Document(segs)) == Ok(Normalized(Printables(segs)))
  {
    if segs == [] {
      EmptyRoundTrip();
    } else {
      SplitPieces(segs);
      ParsePieces(segs);
    }
  }

  // ---------------------------------------------------------------------
  // Carriage returns

  /** A block whose parts hold no carriage return holds none. */
  lemma BlockChars(idx: string, x: string, y: string, t: string)
    requires NoChar(idx, '\r') && NoChar(x, '\r') && NoChar(y, '\r') && NoChar(t, '\r')
    ensures NoChar(idx + "\n" + (x + Arrow + y) + "\n" + t + "\n\n", '\r')
  {
    NoCharGlue(x, Arrow, '\r');
    NoCharGlue(x + Arrow, y, '\r');
    NoCharGlue(idx, "\n", '\r');
    NoCharGlue(idx + "\n", x + Arrow + y, '\r');
    NoCharGlue(idx + "\n" + (x + Arrow + y), "\n", '\r');
    NoCharGlue(idx + "\n" + (x + Arrow + y) + "\n", t, '\r');
    NoCharGlue(idx + "\n" + (x + Arrow + y) + "\n" + t, "\n\n", '\r');
  }

  /** The index and the time line hold digits, colons, commas, spaces and
      the arrow only, so a block holds a carriage return only where its
      stripped text does. */
  lemma BlockLacksReturn(i: nat, seg: Segment)
    requires NoChar(Strip(seg.text), '\r')
    ensures NoChar(Block(i, seg), '\r')
  {
    FormatTimeShape(seg.start);
    FormatTimeShape(seg.end);
    var x, y, idx := FormatTime(seg.start), FormatTime(seg.end), Decimal(i);
    assert NoChar(x, '\r') by {
      forall j | 0 <= j < |x| ensures x[j] != '\r' { assert IsTimecodeChar(x[j]); }
    }
    assert NoChar(y, '\r') by {
      forall j | 0 <= j < |y| ensures y[j] != '\r' { assert IsTimecodeChar(y[j]); }
    }
    assert NoChar(idx, '\r') by {
      forall j | 0 <= j < |idx| ensures idx[j] != '\r' { assert IsDigit(idx[j]); }
    }
    BlockChars(idx, x, y, Strip(seg.text));
  }

  /** create_srt_file writes a carriage return only where a stripped text
      holds one. */
  lemma {:induction false} DocumentLacksReturn(segs: seq<Segment>)
    requires forall k :: 0 <= k < |segs| ==> NoChar(Strip(segs[k].text), '\r')
    ensures NoChar(Document(segs), '\r')
    decreases |segs|
  {
    if segs != [] {
      var n := |segs|;
      DocumentLacksReturn(segs[..n - 1]);
      BlockLacksReturn(n, segs[n - 1]);
      NoCharGlue(Document(segs[..n - 1]), Block(n, segs[n - 1]), '\r');
    }
  }

  /** What create_srt_file wrote, read back in universal-newlines mode, when
      no stripped text holds a carriage return: the blank segments dropped,
      every other one in order with its times and stripped text. */
  lemma BlankSegmentsRead(segs: seq<Segment>)
    requires Transcript(segs)
    ensures ParseSrt(UniversalNewlines(Document(segs))) == Ok(Normalized(Printables(segs)))
  {
    DocumentLacksReturn(segs);
    BlankSegmentsDropped(segs);
  }

  /** Every segment printable or blank, and no stripped text with a carriage return. */
  predicate Transcript(segs: seq<Segment>) {
    forall k :: 0 <= k < |segs| ==> (Printable(segs[k]) || Blank(segs[k])) && NoChar(Strip(segs[k].text), '\r')
  }
}
