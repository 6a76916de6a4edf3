/** The compositing side of subtitle_generator.py: the outcomes of the
    external tools, and the MoviePy overlay clips of
    add_subtitles_to_video_moviepy and create_subtitle_clip. */
module Compositing {
  import opened Strings
  import opened Srt

  /** How a run of the ffmpeg executable ends: it exits 0, exits non-zero
      with its stderr, is not installed, or raises some other exception
      (with that exception's message). */
  datatype ToolOutcome = Succeeded | ExitFailure(stderr: string) | NotFound | Raises(msg: string)

  /** The two ways of burning subtitles in. */
  datatype Compositor = FFmpeg | MoviePy

  /** Where a clip is placed: centred at a pixel row, or centred at the bottom. */
  datatype Position = Row(y: int) | Bottom

  /** A text clip overlaid on the video for one subtitle. */
  datatype Clip = Clip(text: string, start: nat, end: nat, fontSize: nat, position: Position)

  /** Whether building a TextClip succeeds: with the `label` method at the
      height-derived size, and, failing that, with the plain fallback. */
  datatype Renderer = Renderer(labelled: (Segment, nat) -> bool, fallback: Segment -> bool)

  /** min(height // 20, 48): one point per 20 pixels of height, capped at
      48 from a height of 960 on. */
  function FontSize(height: nat): (size: nat)
    ensures size <= 48 && 20 * size <= height
    ensures size == 48 <==> height >= 960
    ensures height < 960 ==> size == height / 20
  {
    if height / 20 < 48 then height / 20 else 48
  }

  /** create_subtitle_clip: the `label` clip at min(h // 20, 48) points,
      100 pixels above the bottom edge; if building it raises, a 24-point
      clip at the bottom; if that raises too, None. A built clip shows the
      subtitle's own text over its own time span. */
  function SubtitleClip(seg: Segment, height: nat, r: Renderer): (clip: Option<Clip>)
    ensures clip.None? <==> !r.labelled(seg, height) && !r.fallback(seg)
    ensures clip.Some? ==> clip.value.text == seg.text && clip.value.start == seg.start && clip.value.end == seg.end
    ensures clip.Some? && r.labelled(seg, height) ==>
      clip.value.fontSize == FontSize(height) && clip.value.position == Row(height - 100)
    ensures clip.Some? && !r.labelled(seg, height) ==> clip.value.fontSize == 24 && clip.value.position == Bottom
  {
    if r.labelled(seg, height) then Some(Clip(seg.text, seg.start, seg.end, FontSize(height), Row(height - 100)))
    else if r.fallback(seg) then Some(Clip(seg.text, seg.start, seg.end, 24, Bottom))
    else None
  }

  /** Whether a subtitle gets a clip: its text is non-empty and a clip was built. */
  predicate Overlaid(seg: Segment, height: nat, r: Renderer) {
    seg.text != [] && SubtitleClip(seg, height, r).Some?
  }

  /** The clips of add_subtitles_to_video_moviepy: one per subtitle with
      non-empty text whose clip was built, in subtitle order. */
  function Clips(subs: seq<Segment>, height: nat, r: Renderer): (clips: seq<Clip>)
    ensures |clips| <= |subs|
  {
    if subs == [] then []
    else
      var last := subs[|subs| - 1];
      Clips(subs[..|subs| - 1], height, r)
        + (if Overlaid(last, height, r) then [SubtitleClip(last, height, r).value] else [])
  }

  /** The loop over the subtitles, appending each clip that was built. */
  method CollectClips(subs: seq<Segment>, height: nat, r: Renderer) returns (clips: seq<Clip>)
    ensures clips == Clips(subs, height, r)
  {
    clips := [];
    var i := 0;
    while i < |subs|
      invariant 0 <= i <= |subs|
      invariant clips == Clips(subs[..i], height, r)
    {
      var seg := subs[i];
      assert subs[..i + 1][..i] == subs[..i];
      if seg.text != [] {
        var clip := SubtitleClip(seg, height, r);
        if clip.Some? {
          clips := clips + [clip.value];
        }
      }
      i := i + 1;
    }
    assert subs[..i] == subs;
  }

  /** Clips of consecutive runs of subtitles are consecutive. */
  lemma {:induction false} ClipsAppend(a: seq<Segment>, b: seq<Segment>, height: nat, r: Renderer)
    ensures Clips(a + b, height, r) == Clips(a, height, r) + Clips(b, height, r)
    decreases |b|
  {
    if b == [] {
      assert a + b == a;
    } else {
      var n := |b|;
      assert (a + b)[..|a + b| - 1] == a + b[..n - 1];
      assert (a + b)[|a + b| - 1] == b[n - 1];
      ClipsAppend(a, b[..n - 1], height, r);
    }
  }

  /** No more clips than subtitles, each showing the text and time span of
      a subtitle whose text is non-empty. */
  lemma {:induction false} ClipsFromSubtitles(subs: seq<Segment>, height: nat, r: Renderer)
    ensures |Clips(subs, height, r)| <= |subs|
    ensures forall c :: c in Clips(subs, height, r) ==>
      c.text != [] && exists k :: 0 <= k < |subs| && subs[k].text == c.text && subs[k].start == c.start && subs[k].end == c.end
    decreases |subs|
  {
    if subs != [] {
      var n := |subs|;
      var prefix := subs[..n - 1];
      ClipsFromSubtitles(prefix, height, r);
      forall c | c in Clips(subs, height, r)
        ensures c.text != [] && exists k :: 0 <= k < n && subs[k].text == c.text && subs[k].start == c.start && subs[k].end == c.end
      {
        if c in Clips(prefix, height, r) {
          var k :| 0 <= k < n - 1 && prefix[k].text == c.text && prefix[k].start == c.start && prefix[k].end == c.end;
          assert subs[k] == prefix[k];
        }
      }
    }
  }

  /** Subtitles that all have text and whose label clips all build give
      one clip each, in order, at the height-derived size. */
  lemma {:induction false} ClipsAllLabelled(subs: seq<Segment>, height: nat, r: Renderer)
    requires forall k :: 0 <= k < |subs| ==> subs[k].text != [] && r.labelled(subs[k], height)
    ensures |Clips(subs, height, r)| == |subs|
    ensures forall k :: 0 <= k < |subs| ==>
      Clips(subs, height, r)[k] == Clip(subs[k].text, subs[k].start, subs[k].end, FontSize(height), Row(height - 100))
    decreases |subs|
  {
    if subs != [] {
      var n := |subs|;
      var prefix := subs[..n - 1];
      ClipsAllLabelled(prefix, height, r);
      forall k | 0 <= k < n - 1
        ensures Clips(subs, height, r)[k] == Clip(subs[k].text, subs[k].start, subs[k].end, FontSize(height), Row(height - 100))
      {
        assert subs[k] == prefix[k];
      }
    }
  }

  /** When no subtitle has text, there is nothing to overlay and the base
      video is written alone. */
  lemma {:induction false} ClipsOfBlankSubtitles(subs: seq<Segment>, height: nat, r: Renderer)
    requires forall k :: 0 <= k < |subs| ==> subs[k].text == []
    ensures Clips(subs, height, r) == []
    decreases |subs|
  {
    if subs != [] {
      ClipsOfBlankSubtitles(subs[..|subs| - 1], height, r);
    }
  }
}
