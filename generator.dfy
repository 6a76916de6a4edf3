/** The SubtitleGenerator class itself, step by step over a mutable disk.
    Every method is proved against the outcome function of the Pipeline
    module that describes it: the value it returns and the disk it leaves
    are the ones that function gives for the disk it started from. */
module Generator {
  import opened Strings
  import opened Srt
  import opened FfmpegStyle
  import opened Compositing
  import opened Pipeline

  /** The file system the class reads and writes, path by path. */
  class Disk {
    var files: Files

    constructor(files: Files)
      ensures this.files == files
    {
      this.files := files;
    }

    /** os.path.exists */
    predicate Exists(path: string)
      reads this
    {
      path in files
    }

    /** Writing a file replaces whatever was at its path. */
    method Write(path: string, c: Content)
      modifies this
      ensures files == old(files)[path := c]
    {
      files := files[path := c];
    }

    /** os.remove: the file must exist. */
    method Remove(path: string)
      requires path in files
      modifies this
      ensures files == old(files) - {path}
    {
      files := files - {path};
    }
  }

  /** The generator: the Whisper model it loaded, by name, and the
      libraries it calls. */
  class SubtitleGenerator {
    const model: string
    const env: Env

    /** __init__: load the named Whisper model. */
    constructor(env: Env, whisperModel: string := DefaultWhisperModel)
      ensures model == whisperModel && this.env == env
    {
      model := whisperModel;
      this.env := env;
    }

    /** extract_audio */
    method ExtractAudio(disk: Disk, video: string, audio: string := TempAudio) returns (r: Result<string>)
      modifies disk
      ensures var o := ExtractOutcome(old(disk.files), video, audio, env);
        r == o.result && disk.files == o.files
    {
      var info := OpenVideo(disk.files, video, env);
      if info.Err? {
        return Err(info.msg);
      }
      if !info.value.hasAudio {
        return Err(NoAudioTrack);
      }
      disk.Write(audio, Audio(disk.files[video]));
      return Ok(audio);
    }

    /** transcribe_audio */
    method TranscribeAudio(disk: Disk, audio: string) returns (r: Result<seq<Segment>>)
      ensures r == TranscribeOutcome(disk.files, audio, model, env)
      ensures r.Ok? ==> audio in disk.files
    {
      if !disk.Exists(audio) {
        return Err(NoSuchFile(audio));
      }
      r := env.transcribe(model, disk.files[audio]);
    }

    /** create_srt_file: the numbered blocks written to `path`. */
    method CreateSrtFile(disk: Disk, segs: seq<Segment>, path: string := DefaultSrtPath)
      modifies disk
      ensures disk.files == old(disk.files)[path := SrtFile(segs)]
    {
      var doc := Srt.WriteSrt(segs);
      disk.Write(path, Text(doc));
    }

    /** parse_srt_file on the file at `path`. */
    method ParseSrtFile(disk: Disk, path: string) returns (r: Result<seq<Segment>>)
      ensures r == ReadSrtFile(disk.files, path)
      ensures path in disk.files && disk.files[path] == SrtFile([]) ==> r == Ok([])
    {
      if !disk.Exists(path) {
        return Err(NoSuchFile(path));
      }
      match disk.files[path]
      case Text(body) =>
        r := ReadSrt(UniversalNewlines(body));
        if body == Document([]) {
          EmptyRoundTrip();
        }
      case _ =>
        r := Err("'utf-8' codec can't decode " + path);
    }

    /** add_subtitles_to_video_moviepy */
    method AddSubtitlesMoviePy(disk: Disk, video: string, srt: string, out: string := DefaultVideoPath) returns (r: Result<string>)
      modifies disk
      ensures var o := MoviePyOutcome(old(disk.files), video, srt, out, env);
        r == o.result && disk.files == o.files
    {
      var subs := ParseSrtFile(disk, srt);
      if subs.Err? {
        return Err(subs.msg);
      }
      var info := OpenVideo(disk.files, video, env);
      if info.Err? {
        return Err(info.msg);
      }
      var clips := CollectClips(subs.value, info.value.height, env.renderer);
      var composed := Encoded(disk.files[video], clips);
      var failure := env.writeVideo(composed);
      if failure.Some? {
        return Err(failure.value);
      }
      disk.Write(out, composed);
      return Ok(out);
    }

    /** add_subtitles_to_video_with_srt */
    method AddSubtitlesWithSrt(disk: Disk, video: string, srt: string, out: string := DefaultVideoPath,
                               style: Option<map<string, Values.Value>> := None)
      returns (r: Result<string>, tried: seq<Compositor>)
      modifies disk
      ensures var o := FfmpegOutcome(old(disk.files), video, srt, out, style, env);
        r == o.result && tried == o.tried && disk.files == o.files
    {
      var s := StyleString(style);
      if s.Err? {
        return Err(s.msg), [];
      }
      var cmd := FfmpegCommand(video, srt, s.value, out);
      match env.ffmpeg(cmd)
      case Succeeded =>
        disk.Write(out, Burned(Lookup(disk.files, video), Lookup(disk.files, srt), s.value));
        r, tried := Ok(out), [FFmpeg];
      case ExitFailure(e) =>
        r, tried := Err(FfmpegFailure(e)), [FFmpeg];
      case NotFound =>
        r := AddSubtitlesMoviePy(disk, video, srt, out);
        tried := [FFmpeg, MoviePy];
      case Raises(e) =>
        r, tried := Err(e), [FFmpeg];
    }

    /** add_subtitles_to_video: try, except, finally. */
    method AddSubtitlesToVideo(disk: Disk, video: string, segs: seq<Segment>, out: string := DefaultVideoPath)
      returns (r: Result<string>, tried: seq<Compositor>)
      modifies disk
      ensures var o := AddSubtitlesOutcome(old(disk.files), video, segs, out, env);
        r == o.result && tried == o.tried && disk.files == o.files
    {
      CreateSrtFile(disk, segs, TempSrt);
      r, tried := AddSubtitlesWithSrt(disk, video, TempSrt, out);
      if r.Err? {
        r := AddSubtitlesMoviePy(disk, video, TempSrt, out);
        tried := tried + [MoviePy];
      }
      if disk.Exists(TempSrt) {
        disk.Remove(TempSrt);
      }
    }

    /** generate_subtitles: default output names, the try block, then the
        finally block removing the temporary audio when asked to. */
    method GenerateSubtitles(disk: Disk, video: string, videoOut: Option<string> := None,
                             srtOut: Option<string> := None, cleanup: bool := true)
      returns (r: Result<(string, string)>, steps: seq<Step>)
      modifies disk
      ensures var o := GenerateOutcome(old(disk.files), video, model, env, videoOut, srtOut, cleanup);
        r == o.result && steps == o.steps && disk.files == o.files
    {
      var v := if videoOut.Some? then videoOut.value else DefaultVideoOutput(video);
      var s := if srtOut.Some? then srtOut.value else DefaultSrtOutput(video);
      var done;
      done, steps := RunSteps(disk, video, v, s);
      r := if done.Ok? then Ok((v, s)) else Err(done.msg);
      if cleanup && disk.Exists(TempAudio) {
        disk.Remove(TempAudio);
      }
    }

    /** The try block of generate_subtitles: the steps it starts are
        recorded in order, and the first one that raises ends it. */
    method RunSteps(disk: Disk, video: string, videoOut: string, srtOut: string)
      returns (r: Result<string>, steps: seq<Step>)
      modifies disk
      ensures var o := PipelineOutcome(old(disk.files), video, videoOut, srtOut, model, env);
        r == o.result && steps == o.steps && disk.files == o.files
    {
      steps := [Extract];
      var audio := ExtractAudio(disk, video, TempAudio);
      if audio.Err? {
        return audio, steps;
      }
      steps := steps + [Transcribe];
      var segs := TranscribeAudio(disk, TempAudio);
      if segs.Err? {
        return Err(segs.msg), steps;
      }
      steps := steps + [WriteSrt];
      CreateSrtFile(disk, segs.value, srtOut);
      steps := steps + [Burn];
      var tried;
      r, tried := AddSubtitlesToVideo(disk, video, segs.value, videoOut);
    }
  }
}
