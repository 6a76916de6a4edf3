/** The SubtitleGenerator class of subtitle_generator.py: audio extraction,
    transcription, SRT writing and subtitle burning over a disk of named
    files, with the FFmpeg-to-MoviePy fallback and the try/finally
    clean-up of the temporary files. */
module Pipeline {
  import opened Strings
  import opened Values
  import opened Srt
  import opened FfmpegStyle
  import opened Compositing

  /** What a file on disk holds. Files the tools write record what they
      were made from. */
  datatype Content =
    | Text(body: string)
    | Audio(source: Content)
    | Burned(input: Option<Content>, subtitles: Option<Content>, style: string)
    | Encoded(base: Content, overlays: seq<Clip>)

  /** What opening a video reports: its height and whether it has sound. */
  datatype VideoInfo = VideoInfo(height: nat, hasAudio: bool)

  /** The libraries and programs the class calls into, as oracles:
      VideoFileClip, Whisper's transcribe (given the model name), the
      ffmpeg run, TextClip, and write_videofile (Some(message) when it
      raises). */
  datatype Env = Env(
    openVideo: Content -> Result<VideoInfo>,
    transcribe: (string, Content) -> Result<seq<Segment>>,
    ffmpeg: seq<string> -> ToolOutcome,
    renderer: Renderer,
    writeVideo: Content -> Option<string>)

  /** The four steps of generate_subtitles. */
  datatype Step = Extract | Transcribe | WriteSrt | Burn

  /** The fixed temporary file names. */
  const TempSrt: string := "temp_subtitles.srt"
  const TempAudio: string := "temp_audio.wav"

  /** The default arguments of the class's methods. */
  const DefaultWhisperModel: string := "base"
  const DefaultSrtPath: string := "subtitles.srt"
  const DefaultVideoPath: string := "video_with_subtitles.mp4"

  /** The message of a video without a sound track. */
  const NoAudioTrack: string := "'NoneType' object has no attribute 'write_audiofile'"

  type Files = map<string, Content>

  function NoSuchFile(path: string): string {
    "No such file or directory: '" + path + "'"
  }

  /** The file at a path, if there is one. */
  function Lookup(files: Files, path: string): Option<Content> {
    if path in files then Some(files[path]) else None
  }

  /** VideoFileClip(path): the file must exist and open as a video. */
  function OpenVideo(files: Files, path: string, env: Env): (r: Result<VideoInfo>)
    ensures r.Ok? ==> path in files
  {
    if path in files then env.openVideo(files[path]) else Err(NoSuchFile(path))
  }

  /** An outcome and the disk after it. */
  datatype Run<T> = Run(result: Result<T>, files: Files)

  /** extract_audio: the sound track of the video written to `audio`. */
  function ExtractOutcome(files: Files, video: string, audio: string, env: Env): (r: Run<string>)
    ensures r.result.Err? ==> r.files == files
    ensures r.result.Ok? ==> r.result.value == audio && video in files && r.files == files[audio := Audio(files[video])]
  {
    match OpenVideo(files, video, env)
    case Err(e) => Run(Err(e), files)
    case Ok(info) =>
      if !info.hasAudio then Run(Err(NoAudioTrack), files)
      else Run(Ok(audio), files[audio := Audio(files[video])])
  }

  /** transcribe_audio: Whisper run on the audio file with the loaded model. */
  function TranscribeOutcome(files: Files, audio: string, model: string, env: Env): (r: Result<seq<Segment>>)
    ensures r.Ok? ==> audio in files && r == env.transcribe(model, files[audio])
  {
    if audio in files then env.transcribe(model, files[audio]) else Err(NoSuchFile(audio))
  }

  /** The file create_srt_file writes. */
  function SrtFile(segs: seq<Segment>): Content {
    Text(Document(segs))
  }

  /** parse_srt_file on a file: it must exist and hold text, which
      open(path, 'r') reads in universal-newlines mode. */
  function ReadSrtFile(files: Files, path: string): (r: Result<seq<Segment>>)
    ensures r.Ok? ==> path in files && files[path].Text?
  {
    if path !in files then Err(NoSuchFile(path))
    else match files[path]
      case Text(body) => ParseSrt(UniversalNewlines(body))
      case _ => Err("'utf-8' codec can't decode " + path)
  }

  /** add_subtitles_to_video_moviepy: parse the SRT file, open the video,
      overlay the clips built (the base video alone when there are none)
      and write the result to `out`. */
  function MoviePyOutcome(files: Files, video: string, srt: string, out: string, env: Env): (r: Run<string>)
    ensures r.result.Err? ==> r.files == files
    ensures r.result.Ok? ==> (r.result.value == out && video in files && out in r.files
      && r.files == files[out := r.files[out]] && r.files[out].Encoded? && r.files[out].base == files[video])
    ensures r.result.Ok? ==> (ReadSrtFile(files, srt).Ok? && OpenVideo(files, video, env).Ok? && out in r.files
      && r.files[out].Encoded?
      && r.files[out].overlays == Clips(ReadSrtFile(files, srt).value, OpenVideo(files, video, env).value.height, env.renderer))
  {
    match ReadSrtFile(files, srt)
    case Err(e) => Run(Err(e), files)
    case Ok(subs) =>
      match OpenVideo(files, video, env)
      case Err(e) => Run(Err(e), files)
      case Ok(info) =>
        var composed := Encoded(files[video], Clips(subs, info.height, env.renderer));
        match env.writeVideo(composed)
        case Some(e) => Run(Err(e), files)
        case None => Run(Ok(out), files[out := composed])
  }

  /** An outcome, the disk after it, and the compositors tried, in order. */
  datatype BurnRun = BurnRun(result: Result<string>, files: Files, tried: seq<Compositor>)

  /** The message of a non-zero ffmpeg exit. */
  function FfmpegFailure(stderr: string): string {
    "Failed to add subtitles with FFmpeg: " + stderr
  }

  /** add_subtitles_to_video_with_srt: build the style and the command, run
      ffmpeg; a missing ffmpeg falls back to MoviePy, a non-zero exit raises
      with its stderr, any other exception propagates. */
  function FfmpegOutcome(files: Files, video: string, srt: string, out: string,
                         style: Option<map<string, Value>>, env: Env): (r: BurnRun)
    ensures r.tried == [] <==> StyleString(style).Err?
    ensures r.tried == [] || r.tried == [FFmpeg] || r.tried == [FFmpeg, MoviePy]
    ensures |r.tried| == 2 <==>
      StyleString(style).Ok? && env.ffmpeg(FfmpegCommand(video, srt, StyleString(style).value, out)) == NotFound
    ensures r.result.Ok? ==> r.result.value == out && out in r.files
    ensures forall p :: p != out ==> Lookup(r.files, p) == Lookup(files, p)
    ensures forall p :: p in files ==> p in r.files
  {
    match StyleString(style)
    case Err(e) => BurnRun(Err(e), files, [])
    case Ok(s) =>
      match env.ffmpeg(FfmpegCommand(video, srt, s, out))
      case Succeeded => BurnRun(Ok(out), files[out := Burned(Lookup(files, video), Lookup(files, srt), s)], [FFmpeg])
      case ExitFailure(e) => BurnRun(Err(FfmpegFailure(e)), files, [FFmpeg])
      case NotFound =>
        var m := MoviePyOutcome(files, video, srt, out, env);
        BurnRun(m.result, m.files, [FFmpeg, MoviePy])
      case Raises(e) => BurnRun(Err(e), files, [FFmpeg])
  }

  /** add_subtitles_to_video: write the temporary SRT, try FFmpeg, fall
      back to MoviePy on any exception, and remove the temporary SRT
      whatever happened. */
  function AddSubtitlesOutcome(files: Files, video: string, segs: seq<Segment>, out: string, env: Env): (r: BurnRun)
    ensures TempSrt !in r.files
    ensures 1 <= |r.tried| <= 3 && r.tried[0] == FFmpeg
    ensures r.result.Ok? ==> r.result.value == out && (out != TempSrt ==> out in r.files)
    ensures forall p :: p != out && p != TempSrt ==> Lookup(r.files, p) == Lookup(files, p)
    ensures forall p :: p in files && p != TempSrt ==> p in r.files
  {
    var written := files[TempSrt := SrtFile(segs)];
    var last := WithFallback(FfmpegOutcome(written, video, TempSrt, out, None, env), video, TempSrt, out, env);
    TempLookups(files, written, last.files, SrtFile(segs));
    BurnRun(last.result, last.files - {TempSrt}, last.tried)
  }

  /** Writing and then removing the temporary SRT leaves every other path
      as the steps in between left it. */
  lemma TempLookups(files: Files, written: Files, last: Files, c: Content)
    requires written == files[TempSrt := c]
    ensures forall p :: p != TempSrt ==> Lookup(written, p) == Lookup(files, p)
    ensures forall p :: p != TempSrt ==> Lookup(last - {TempSrt}, p) == Lookup(last, p)
  {
  }

  /** The `except` branch of add_subtitles_to_video: a failed first attempt
      is followed by MoviePy, whose outcome replaces it. */
  function WithFallback(first: BurnRun, video: string, srt: string, out: string, env: Env): (r: BurnRun)
    requires first.result.Ok? ==> first.result.value == out && out in first.files
    ensures r.tried == if first.result.Ok? then first.tried else first.tried + [MoviePy]
    ensures r.result.Ok? ==> r.result.value == out && out in r.files
    ensures forall p :: p != out ==> Lookup(r.files, p) == Lookup(first.files, p)
    ensures forall p :: p in first.files ==> p in r.files
  {
    if first.result.Ok? then first
    else
      var m := MoviePyOutcome(first.files, video, srt, out, env);
      BurnRun(m.result, m.files, first.tried + [MoviePy])
  }

  // ---------------------------------------------------------------------
  // Output names: os.path.basename and os.path.splitext on POSIX paths

  /** The part of a path after its last `/`. */
  function Basename(path: string): (name: string)
    ensures forall i :: 0 <= i < |name| ==> name[i] != '/'
  {
    if path == [] || path[|path| - 1] == '/' then []
    else Basename(path[..|path| - 1]) + [path[|path| - 1]]
  }

  /** The index of the last `c` in `s`, or -1. */
  function LastIndex(s: string, c: char): (i: int)
    ensures -1 <= i < |s|
    ensures i >= 0 ==> s[i] == c
    ensures forall j :: i < j < |s| ==> s[j] != c
  {
    if s == [] then -1
    else if s[|s| - 1] == c then |s| - 1
    else LastIndex(s[..|s| - 1], c)
  }

  /** splitext(name)[0]: cut at the last dot, unless only dots come before it. */
  function Root(name: string): (r: string)
    ensures |r| <= |name| && r == name[..|r|]
    ensures r != name ==> name[|r|] == '.' && (exists j :: 0 <= j < |r| && r[j] != '.')
    ensures r != name ==> forall j :: |r| < j < |name| ==> name[j] != '.'
  {
    var d := LastIndex(name, '.');
    if d > 0 && exists j :: 0 <= j < d && name[j] != '.' then name[..d] else name
  }

  /** The base name of a video without its extension. */
  function Stem(video: string): (r: string)
    ensures forall i :: 0 <= i < |r| ==> r[i] != '/'
  {
    var b := Basename(video);
    assert forall i :: 0 <= i < |Root(b)| ==> Root(b)[i] == b[i];
    Root(b)
  }

  function DefaultVideoOutput(video: string): string {
    Stem(video) + "_with_subtitles.mp4"
  }

  function DefaultSrtOutput(video: string): string {
    Stem(video) + "_subtitles.srt"
  }

  // ---------------------------------------------------------------------
  // The whole pipeline

  /** An outcome, the disk after it, and the steps started, in order. */
  datatype StepsRun = StepsRun(result: Result<string>, files: Files, steps: seq<Step>)

  /** The try block of generate_subtitles: extract, transcribe, write the
      deliverable SRT, burn; the first step that raises ends it. */
  function PipelineOutcome(files: Files, video: string, videoOut: string, srtOut: string, model: string, env: Env): (r: StepsRun)
    ensures 1 <= |r.steps| <= 4 && r.steps == [Extract, Transcribe, WriteSrt, Burn][..|r.steps|]
    ensures r.result.Ok? ==> |r.steps| == 4
    ensures TempSrt !in files || |r.steps| == 4 ==> TempSrt !in r.files
    ensures ExtractOutcome(files, video, TempAudio, env).result.Ok? ==> TempAudio in r.files
  {
    var ex := ExtractOutcome(files, video, TempAudio, env);
    if ex.result.Err? then StepsRun(Err(ex.result.msg), ex.files, [Extract])
    else
      match TranscribeOutcome(ex.files, TempAudio, model, env)
      case Err(e) => StepsRun(Err(e), ex.files, [Extract, Transcribe])
      case Ok(segs) =>
        var b := AddSubtitlesOutcome(ex.files[srtOut := SrtFile(segs)], video, segs, videoOut, env);
        StepsRun(b.result, b.files, [Extract, Transcribe, WriteSrt, Burn])
  }

  /** The outcome of generate_subtitles, the disk after it and the steps started. */
  datatype Generated = Generated(result: Result<(string, string)>, files: Files, steps: seq<Step>)

  /** generate_subtitles: default output names from the video's name, the
      steps, then the finally block removing the temporary audio when
      asked to. */
  function GenerateOutcome(files: Files, video: string, model: string, env: Env,
                           videoOut: Option<string> := None, srtOut: Option<string> := None,
                           cleanup: bool := true): (r: Generated)
    ensures 1 <= |r.steps| <= 4 && r.steps == [Extract, Transcribe, WriteSrt, Burn][..|r.steps|]
    ensures r.result.Ok? ==> |r.steps| == 4
    ensures cleanup ==> TempAudio !in r.files
    ensures !cleanup && ExtractOutcome(files, video, TempAudio, env).result.Ok? ==> TempAudio in r.files
    ensures TempSrt !in files || |r.steps| == 4 ==> TempSrt !in r.files
  {
    var v := if videoOut.Some? then videoOut.value else DefaultVideoOutput(video);
    var s := if srtOut.Some? then srtOut.value else DefaultSrtOutput(video);
    var body := PipelineOutcome(files, video, v, s, model, env);
    var cleaned := if cleanup && TempAudio in body.files then body.files - {TempAudio} else body.files;
    Generated(if body.result.Ok? then Ok((v, s)) else Err(body.result.msg), cleaned, body.steps)
  }

  // ---------------------------------------------------------------------
  // The fallback between the compositors

  /** When ffmpeg succeeds, only FFmpeg is tried: the output is the video
      burned with the temporary SRT, which holds the transcript's SRT, in
      the default style; no other file but the removed temporary SRT changes. */
  lemma FfmpegSucceeds(files: Files, video: string, segs: seq<Segment>, out: string, env: Env)
    requires env.ffmpeg(FfmpegCommand(video, TempSrt, DefaultStyle, out)) == Succeeded
    requires out != TempSrt
    ensures var r := AddSubtitlesOutcome(files, video, segs, out, env);
      r.tried == [FFmpeg] && r.result == Ok(out) && out in r.files
      && r.files[out].Burned? && r.files[out].subtitles == Some(SrtFile(segs)) && r.files[out].style == DefaultStyle
      && (video != TempSrt ==> r.files[out].input == Lookup(files, video))
      && forall p :: p != out && p != TempSrt ==> Lookup(r.files, p) == Lookup(files, p)
  {
    assert StyleString(None) == Ok(DefaultStyle);
  }

  /** When ffmpeg exits non-zero or raises, the exception is caught and
      MoviePy runs once on the same disk; what it returns or raises is the
      outcome, and the FFmpeg message is lost. */
  lemma FfmpegFailsFallsBack(files: Files, video: string, segs: seq<Segment>, out: string, env: Env)
    requires env.ffmpeg(FfmpegCommand(video, TempSrt, DefaultStyle, out)).ExitFailure?
          || env.ffmpeg(FfmpegCommand(video, TempSrt, DefaultStyle, out)).Raises?
    ensures var r := AddSubtitlesOutcome(files, video, segs, out, env);
      var m := MoviePyOutcome(files[TempSrt := SrtFile(segs)], video, TempSrt, out, env);
      r.tried == [FFmpeg, MoviePy] && r.result == m.result && r.files == m.files - {TempSrt}
  {
    assert StyleString(None) == Ok(DefaultStyle);
  }

  /** When ffmpeg is not installed, add_subtitles_to_video_with_srt runs
      MoviePy itself; if that raises, add_subtitles_to_video catches it and
      runs MoviePy a second time, on the unchanged disk, which raises the
      same error: that error is the outcome. */
  lemma FfmpegMissingFallsBack(files: Files, video: string, segs: seq<Segment>, out: string, env: Env)
    requires env.ffmpeg(FfmpegCommand(video, TempSrt, DefaultStyle, out)) == NotFound
    ensures var r := AddSubtitlesOutcome(files, video, segs, out, env);
      var m := MoviePyOutcome(files[TempSrt := SrtFile(segs)], video, TempSrt, out, env);
      r.result == m.result && r.files == m.files - {TempSrt}
      && r.tried == (if m.result.Ok? then [FFmpeg, MoviePy] else [FFmpeg, MoviePy, MoviePy])
  {
    assert StyleString(None) == Ok(DefaultStyle);
  }

  /** parse_srt_file on the file create_srt_file wrote: blank segments are
      dropped and every other one comes back in order with its times and
      stripped text, provided no stripped text holds a carriage return,
      which reading in text mode would turn into a newline. */
  lemma SrtFileRoundTrip(files: Files, path: string, segs: seq<Segment>)
    requires path in files && files[path] == SrtFile(segs)
    requires Transcript(segs)
    ensures ReadSrtFile(files, path) == Ok(Normalized(Printables(segs)))
  {
    BlankSegmentsRead(segs);
    ReadText(files, path, Document(segs));
  }

  lemma ReadText(files: Files, path: string, body: string)
    requires path in files && files[path] == Text(body)
    ensures ReadSrtFile(files, path) == ParseSrt(UniversalNewlines(body))
  {
  }

  /** MoviePy run on the temporary SRT of a transcript overlays the clips
      of the transcript's printable segments on the video. */
  lemma MoviePyReadsTranscript(files: Files, video: string, segs: seq<Segment>, out: string, env: Env)
    requires Transcript(segs)
    requires video != TempSrt
    ensures var m := MoviePyOutcome(files[TempSrt := SrtFile(segs)], video, TempSrt, out, env);
      m.result.Ok? ==>
        && video in files && out in m.files && env.openVideo(files[video]).Ok?
        && m.files[out] == Encoded(files[video],
             Clips(Normalized(Printables(segs)), env.openVideo(files[video]).value.height, env.renderer))
  {
    var written := files[TempSrt := SrtFile(segs)];
    SrtFileRoundTrip(written, TempSrt, segs);
    var m := MoviePyOutcome(written, video, TempSrt, out, env);
    if m.result.Ok? {
      assert OpenVideo(written, video, env) == env.openVideo(files[video]);
    }
  }

  /** When ffmpeg exits non-zero or raises and MoviePy then succeeds, the
      output video is the input with the clips of the transcript's
      printable segments, as read back from the temporary SRT. */
  lemma FallbackOverlaysTranscript(files: Files, video: string, segs: seq<Segment>, out: string, env: Env)
    requires env.ffmpeg(FfmpegCommand(video, TempSrt, DefaultStyle, out)).ExitFailure?
          || env.ffmpeg(FfmpegCommand(video, TempSrt, DefaultStyle, out)).Raises?
    requires Transcript(segs)
    requires out != TempSrt && video != TempSrt
    ensures var r := AddSubtitlesOutcome(files, video, segs, out, env);
      r.result.Ok? ==>
        && video in files && out in r.files && env.openVideo(files[video]).Ok?
        && r.files[out] == Encoded(files[video],
             Clips(Normalized(Printables(segs)), env.openVideo(files[video]).value.height, env.renderer))
  {
    FfmpegFailsFallsBack(files, video, segs, out, env);
    MoviePyReadsTranscript(files, video, segs, out, env);
    var r := AddSubtitlesOutcome(files, video, segs, out, env);
    var m := MoviePyOutcome(files[TempSrt := SrtFile(segs)], video, TempSrt, out, env);
    if r.result.Ok? {
      assert r.files[out] == m.files[out];
    }
  }

  // ---------------------------------------------------------------------
  // Output names

  /** Without a `/`, a path is its own base name; after a directory part
      ending in `/`, the base name is what follows. */
  lemma {:induction false} BasenameAfter(dir: string, name: string)
    requires dir == [] || dir[|dir| - 1] == '/'
    requires forall i :: 0 <= i < |name| ==> name[i] != '/'
    ensures Basename(dir + name) == name
    decreases |name|
  {
    if name == [] {
      assert dir + name == dir;
    } else {
      var n := |name|;
      assert (dir + name)[..|dir + name| - 1] == dir + name[..n - 1];
      BasenameAfter(dir, name[..n - 1]);
      assert name[..n - 1] + [name[n - 1]] == name;
    }
  }

  /** The stem of `dir/name.ext` is `name`, when the extension has no dot
      and the name is not only dots. */
  lemma StemOf(dir: string, name: string, ext: string)
    requires dir == [] || dir[|dir| - 1] == '/'
    requires forall i :: 0 <= i < |name| ==> name[i] != '/'
    requires forall i :: 0 <= i < |ext| ==> ext[i] != '/' && ext[i] != '.'
    requires exists j :: 0 <= j < |name| && name[j] != '.'
    ensures Stem(dir + name + "." + ext) == name
  {
    var file := name + "." + ext;
    assert dir + name + "." + ext == dir + file;
    BasenameAfter(dir, file);
    var d := LastIndex(file, '.');
    assert file[|name|] == '.';
    assert d == |name| by {
      forall j | |name| < j < |file| ensures file[j] != '.' {
        assert file[j] == ext[j - |name| - 1];
      }
    }
    var j :| 0 <= j < |name| && name[j] != '.';
    assert file[j] == name[j];
    assert file[..d] == name;
  }

  /** Default outputs are `<stem>_with_subtitles.mp4` and `<stem>_subtitles.srt`. */
  lemma DefaultOutputs(dir: string, name: string, ext: string)
    requires dir == [] || dir[|dir| - 1] == '/'
    requires forall i :: 0 <= i < |name| ==> name[i] != '/'
    requires forall i :: 0 <= i < |ext| ==> ext[i] != '/' && ext[i] != '.'
    requires exists j :: 0 <= j < |name| && name[j] != '.'
    ensures DefaultVideoOutput(dir + name + "." + ext) == name + "_with_subtitles.mp4"
    ensures DefaultSrtOutput(dir + name + "." + ext) == name + "_subtitles.srt"
  {
    StemOf(dir, name, ext);
  }

  /** The two default names never coincide, nor does either with the
      temporary audio. */
  lemma DefaultOutputsDistinct(video: string)
    ensures DefaultVideoOutput(video) != DefaultSrtOutput(video)
    ensures DefaultSrtOutput(video) != TempAudio && DefaultVideoOutput(video) != TempAudio
  {
    var stem := Stem(video);
    var v := DefaultVideoOutput(video);
    var s := DefaultSrtOutput(video);
    assert v[|v| - 1] == '4' && s[|s| - 1] == 't';
    assert TempAudio[|TempAudio| - 1] == 'v';
  }

  // ---------------------------------------------------------------------
  // The whole pipeline

  /** Omitted output paths are the default names. */
  lemma DefaultsChosen(files: Files, video: string, cleanup: bool, model: string, env: Env)
    ensures GenerateOutcome(files, video, model, env, None, None, cleanup)
         == GenerateOutcome(files, video, model, env, Some(DefaultVideoOutput(video)), Some(DefaultSrtOutput(video)), cleanup)
  {
  }

  /** When the audio cannot be extracted nothing else runs: the error is
      the outcome and the disk is unchanged but for the clean-up. */
  lemma ExtractFailureStops(files: Files, video: string, videoOut: Option<string>, srtOut: Option<string>,
                            cleanup: bool, model: string, env: Env)
    requires ExtractOutcome(files, video, TempAudio, env).result.Err?
    ensures var r := GenerateOutcome(files, video, model, env, videoOut, srtOut, cleanup);
      r.steps == [Extract] && r.result == Err(ExtractOutcome(files, video, TempAudio, env).result.msg)
      && r.files == (if cleanup then files - {TempAudio} else files)
  {
  }

  /** When transcription fails no SRT is written and nothing is burned:
      the disk holds only the extracted audio, unless it is cleaned up. */
  lemma TranscribeFailureStops(files: Files, video: string, videoOut: Option<string>, srtOut: Option<string>,
                               cleanup: bool, model: string, env: Env)
    requires video in files && env.openVideo(files[video]).Ok? && env.openVideo(files[video]).value.hasAudio
    requires env.transcribe(model, Audio(files[video])).Err?
    ensures var r := GenerateOutcome(files, video, model, env, videoOut, srtOut, cleanup);
      r.steps == [Extract, Transcribe] && r.result == Err(env.transcribe(model, Audio(files[video])).msg)
      && r.files == (if cleanup then files - {TempAudio} else files[TempAudio := Audio(files[video])])
  {
  }

  /** After a successful run the deliverable SRT holds the transcript in
      SRT form, unless it was given a name the run itself overwrites or
      removes: the temporary SRT, the output video, or, with clean-up, the
      temporary audio. */
  lemma DeliverableKept(files: Files, video: string, videoOut: string, srtOut: string,
                        cleanup: bool, model: string, env: Env, segs: seq<Segment>)
    requires video in files && env.transcribe(model, Audio(files[video])) == Ok(segs)
    requires srtOut != TempSrt && srtOut != videoOut && (cleanup ==> srtOut != TempAudio)
    requires GenerateOutcome(files, video, model, env, Some(videoOut), Some(srtOut), cleanup).result.Ok?
    ensures var r := GenerateOutcome(files, video, model, env, Some(videoOut), Some(srtOut), cleanup);
      r.result == Ok((videoOut, srtOut)) && srtOut in r.files && r.files[srtOut] == SrtFile(segs)
  {
    var ex := ExtractOutcome(files, video, TempAudio, env);
    assert ex.files[TempAudio] == Audio(files[video]);
    var written := ex.files[srtOut := SrtFile(segs)];
    assert Lookup(written, srtOut) == Some(SrtFile(segs));
  }

  /** When ffmpeg succeeds, the subtitles burned into the output video are
      the very SRT text kept as the deliverable. */
  lemma BurnedMatchesDeliverable(files: Files, video: string, videoOut: string, srtOut: string,
                                 cleanup: bool, model: string, env: Env, segs: seq<Segment>)
    requires video in files && env.transcribe(model, Audio(files[video])) == Ok(segs)
    requires env.openVideo(files[video]).Ok? && env.openVideo(files[video]).value.hasAudio
    requires env.ffmpeg(FfmpegCommand(video, TempSrt, DefaultStyle, videoOut)) == Succeeded
    requires srtOut != TempSrt && srtOut != videoOut && videoOut != TempSrt
    requires cleanup ==> srtOut != TempAudio && videoOut != TempAudio
    ensures var r := GenerateOutcome(files, video, model, env, Some(videoOut), Some(srtOut), cleanup);
      r.result == Ok((videoOut, srtOut)) && videoOut in r.files && srtOut in r.files
      && r.files[videoOut].Burned? && r.files[videoOut].subtitles == Some(r.files[srtOut])
  {
  }

  /** A video named `temp.<ext>` gets the default SRT name
      `temp_subtitles.srt`, which is the temporary SRT: the run reports that
      path as its SRT output, yet removes it before returning. */
  lemma TempNamedVideoLosesSrt(files: Files, dir: string, ext: string, cleanup: bool, model: string, env: Env)
    requires dir == [] || dir[|dir| - 1] == '/'
    requires forall i :: 0 <= i < |ext| ==> ext[i] != '/' && ext[i] != '.'
    ensures var r := GenerateOutcome(files, dir + "temp." + ext, model, env, None, None, cleanup);
      r.result.Ok? ==> r.result.value.1 == TempSrt && TempSrt !in r.files
  {
    TempDefaultSrt(dir, ext);
  }

  /** The default SRT name of `temp.<ext>` is the temporary SRT's name. */
  lemma TempDefaultSrt(dir: string, ext: string)
    requires dir == [] || dir[|dir| - 1] == '/'
    requires forall i :: 0 <= i < |ext| ==> ext[i] != '/' && ext[i] != '.'
    ensures DefaultSrtOutput(dir + "temp." + ext) == TempSrt
  {
    TempName();
    DefaultSrtNamed(dir, "temp", ext, TempSrt);
    TempVideoName(dir, "temp", ext);
  }

  lemma TempName()
    ensures "temp"[0] != '.' && "temp" + "_subtitles.srt" == TempSrt
  {
  }

  lemma TempVideoName(dir: string, name: string, ext: string)
    requires name == "temp"
    ensures dir + name + "." + ext == dir + "temp." + ext
  {
  }

  /** The default SRT name of `dir/name.ext`, given what it spells. */
  lemma DefaultSrtNamed(dir: string, name: string, ext: string, target: string)
    requires dir == [] || dir[|dir| - 1] == '/'
    requires forall i :: 0 <= i < |name| ==> name[i] != '/'
    requires forall i :: 0 <= i < |ext| ==> ext[i] != '/' && ext[i] != '.'
    requires name != [] && name[0] != '.' && name + "_subtitles.srt" == target
    ensures DefaultSrtOutput(dir + name + "." + ext) == target
  {
    DefaultOutputs(dir, name, ext);
  }
}
