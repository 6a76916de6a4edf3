# AutoSub subtitle generator, modelled in Dafny

AutoSub turns a video into a subtitled video. Its `SubtitleGenerator` class
works in four steps:

1. It extracts the sound track to `temp_audio.wav`.
2. It transcribes the sound track with a Whisper model.
3. It writes the transcript as a SubRip (`.srt`) file.
4. It burns the subtitles into a copy of the video, which takes two more steps:
   - It writes a temporary `temp_subtitles.srt` and runs `ffmpeg` with a
     `subtitles=...:force_style=...` filter.
   - When that fails it falls back to MoviePy, which parses the SRT file back
     and overlays one text clip per cue.

`config.py` holds the Whisper model setting and an FFmpeg style table, turns
that table into a `Key=value,...` string, and validates the configuration.

The model has one module per concern. All files are verified together.

| file | module | what it holds |
|---|---|---|
| `strings.dfy` | `Strings` | `Result`/`Option`; Python's `str.strip`, `split`, `join`, `replace`, `lstrip`, slicing and integer formatting as functions, with their laws |
| `values.dfy` | `Values` | the untyped values of a style dictionary, their f-string form and truthiness |
| `timecode.dfy` | `Timecode` | `format_time` and `parse_time_string` |
| `srt.dfy` | `Srt` | `create_srt_file` (a loop writing blocks) and `parse_srt_file` (a loop over blocks), with the SRT round trip |
| `style.dfy` | `FfmpegStyle` | `hex_to_ffmpeg`, the custom style string and the ffmpeg command line |
| `compositing.dfy` | `Compositing` | `create_subtitle_clip` sizing and the MoviePy clip-collecting loop |
| `pipeline.dfy` | `Pipeline` | each class method as a function from the disk before to its result and the disk after |
| `generator.dfy` | `Generator` | the `Disk` and `SubtitleGenerator` classes; each method is imperative and proved equal to its `Pipeline` function |
| `config.dfy` | `Config` | `SUBTITLE_STYLE`, `get_subtitle_style_string` (a loop appending settings) and `validate_config` |

The definitions that model the code, each in the module of the table above:

- `format_time` is `Timecode.FormatTime`, and `parse_time_string` is `Timecode.ParseTimeString`.
- The text `create_srt_file` writes is `Srt.Document`, built by the loop `Srt.WriteSrt`.
- `parse_srt_file` is `Srt.ParseSrt`: the content is stripped and split at blank lines, and `Srt.ParseBlocks` reads the blocks with `Srt.ParseBlock`. The loop `Srt.ReadSrt` computes it.
- Opening and reading the SRT file is `Pipeline.ReadSrtFile`.
- The custom style is `FfmpegStyle.StyleString`, and the command line is `FfmpegStyle.FfmpegCommand`.
- The clip loop is `Compositing.Clips`, computed by `Compositing.CollectClips`.
- Each class method is a `Pipeline` function of the disk before, such as `Pipeline.AddSubtitlesOutcome`.
- Python's default arguments are Dafny default parameters with the same values. The model name is `"base"`, the audio path is `temp_audio.wav`, the SRT path is `subtitles.srt` and the output video is `video_with_subtitles.mp4`. The style is `None`, the output paths of `generate_subtitles` are `None`, and clean-up is on. So `SubtitleGenerator(env)` and `GenerateSubtitles(disk, video)` can be written as in Python.

These functions state little about themselves; the lemmas in the table below
state what they mean.

Modelling choices:

- **Times** are whole milliseconds (`nat`).
  - `format_time` is the divmod chain on milliseconds.
  - `parse_time_string` reads `H:M:S,mmm` back and returns an error where
    Python's `int()` or `float()` would raise.
- **The file system** is a map from path to `Content`.
  - A file the tools write records what it was made from: the audio of a
    video, a video burned with a given SRT file and style, or a video
    encoded with a list of clips.
  - Comparing contents therefore shows which input ended up in which output.
- **Whisper, ffmpeg, VideoFileClip, TextClip and write_videofile** are
  oracles: function-typed fields of an `Env` value.
  - The model says nothing about what they compute.
  - It does say exactly when each one is called, on what, and what happens
    to its result or exception.
- **Exceptions** are `Err` results that carry a message.
- **Reading the SRT file** is done in text mode, as Python's `open(path, 'r')`
  does. Each `\r\n` and each lone `\r` becomes `\n` before parsing.

Where the code and its documentation disagree, the model follows the code:

- A cue whose timecode is malformed makes `parse_srt_file` raise; it is not
  skipped.
- In the fallback, the FFmpeg exception is caught and replaced by whatever
  MoviePy does. Only MoviePy's own error reaches the caller.
- When `ffmpeg` is missing, `add_subtitles_to_video_with_srt` already runs
  MoviePy itself. If MoviePy then raises, `add_subtitles_to_video` catches
  that and runs MoviePy a second time (`FfmpegMissingFallsBack`).
- A video called `temp.<ext>` gets the default SRT name
  `temp_subtitles.srt`. That is the temporary SRT file, which is removed in
  the `finally` block. So a successful run reports an SRT output that no
  longer exists (`TempNamedVideoLosesSrt`).

## Model

| member | source | states |
|---|---|---|
| Strings.UniversalNewlines | subtitle_generator.py:273 | reading in text mode leaves no `\r` and never lengthens the text; text without `\r` reads back unchanged |
| Strings.ReplaceCharSpec | subtitle_generator.py:310 | after replacing `a` by another character no `a` is left, only the `a`s changed, and each became the new character |
| Strings.IntToString | config.py:62 | `str` of an integer starts with `-` exactly when it is negative; the digits after it denote the number's magnitude and start with `0` only for zero |
| Timecode.FormatTimeFields | subtitle_generator.py:66-70 | a time of h hours, m < 60 minutes, s < 60 seconds and ms < 1000 milliseconds formats as the clock `HH:MM:SS,mmm` of exactly those fields |
| Timecode.ClockFieldsOf | subtitle_generator.py:66-70 | every time splits into such clock fields, and format_time prints those fields |
| Timecode.FormatTimeShape | subtitle_generator.py:56-70 | a formatted time holds only digits, `:` and `,`; it is 12 characters exactly when under 100 hours, and longer after that |
| Timecode.FracMillis | subtitle_generator.py:314 | the fraction digits give fewer than 1000 milliseconds: the value of the first three digits, and one or two digits scaled to thousandths (`,5` is 500), further digits truncated |
| Timecode.ParseTimeFields | subtitle_generator.py:310-316 | for `h:m:sec`, parsing succeeds exactly when each field parses; the value is h·3600000 + m·60000 + the seconds in milliseconds, with the `,` read as `.` |
| Timecode.ParseTimeIgnoresFourthField | subtitle_generator.py:311-316 | fields after the third colon-separated field are ignored |
| Timecode.TooFewFields | subtitle_generator.py:311-314 | a time with fewer than three fields raises |
| Timecode.ParsePadded | subtitle_generator.py:312-313 | a zero-padded number parses back to itself |
| Timecode.TimecodeRoundTrip | subtitle_generator.py:300-316 | parse_time_string(format_time(t)) == t for every time, as format_time (lines 56-70) prints it |
| Srt.WriteSrt | subtitle_generator.py:85-93 | the loop writes exactly `Document(segs)`: for each segment, numbered from 1, its index line, `start --> end`, its stripped text and a blank line |
| Srt.DocumentEntries | subtitle_generator.py:85-93 | a non-empty document is its cue blocks joined by blank lines, followed by one blank line |
| Srt.EntriesSnoc | subtitle_generator.py:86 | appending a segment appends one block, numbered with the new count |
| Srt.ReadSrt | subtitle_generator.py:271-298 | the loop over blocks returns exactly `ParseSrt(content)` |
| Srt.ParseBlocksStep | subtitle_generator.py:279-296 | after the blocks before it, one block that raises ends the parse with its error, one that the block parser skips leaves the cues as they were, and a cue is appended at the end |
| Srt.ParseBlocksErrorSticks | subtitle_generator.py:279-298 | once a block raises, later blocks change nothing |
| Srt.ParseBlocksAppend | subtitle_generator.py:279-298 | parsing two runs of blocks is parsing each and concatenating, the first error winning |
| Srt.CueLines | subtitle_generator.py:280-285 | a well-formed cue block splits into its index line, its time line and its text lines, and its time line into the two timecodes |
| Srt.ParseCue | subtitle_generator.py:280-296 | a well-formed cue parses to its start, its end and its text lines joined back |
| Srt.BadTimecodeRaises | subtitle_generator.py:285-287 | a cue with a malformed timecode raises |
| Srt.SecondArrowRaises | subtitle_generator.py:285 | a time line with two arrows raises, because it unpacks into two names |
| Srt.ShortBlockSkipped | subtitle_generator.py:280-281 | a block that strips to one line, or to two lines, is skipped |
| Srt.NoArrowSkipped | subtitle_generator.py:280-284 | a block of three or more lines whose second line holds no ` --> ` is skipped |
| Srt.BlankCueSkipped | subtitle_generator.py:280-281 | a cue whose text is empty loses its text line to strip() and is skipped |
| Srt.BlankSegmentSkipped | subtitle_generator.py:89-93 | the block written for a segment whose text strips to nothing reads back, on its own, as no cue |
| Srt.TimecodeFacts | subtitle_generator.py:87-88 | the timecodes written contain no arrow, space or newline, and parse back to the times |
| Srt.EntryParses | subtitle_generator.py:91-93 | the block written for a printable segment parses back to that segment, its text stripped |
| Srt.CueShape | subtitle_generator.py:91-93 | a cue block neither starts nor ends with whitespace and contains no blank line |
| Srt.EntryShape | subtitle_generator.py:91-93 | every block written for a printable segment has that shape |
| Srt.EntriesClosed | subtitle_generator.py:86-93 | every block of a document has that shape |
| Srt.SplitClosed | subtitle_generator.py:277 | stripping a document of such blocks and splitting it at blank lines gives the blocks back |
| Srt.ParseClosed | subtitle_generator.py:277-298 | parsing such a document is parsing its blocks |
| Srt.ParseEntries | subtitle_generator.py:279-296 | the blocks of printable segments parse to those segments with stripped text |
| Srt.NormalizedSnoc | subtitle_generator.py:89 | the segments read back grow by one stripped segment per segment |
| Srt.EmptyRoundTrip | subtitle_generator.py:277 | an empty transcript writes a file that reads back as no subtitles |
| Srt.SrtRoundTrip | subtitle_generator.py:277-298 | parsing the text create_srt_file (lines 85-93) writes gives back every segment, in order, with its times and stripped text, when no text is blank or holds a blank line |
| Srt.BlankSegmentsDropped | subtitle_generator.py:277-298 | parsing the text create_srt_file (lines 85-93) writes, when some segments are blank and the rest printable, drops the blank ones and gives back every other one, in order, with its times and stripped text |
| Srt.DocumentLacksReturn | subtitle_generator.py:85-93 | when no stripped text holds `\r`, the text written holds none |
| Srt.BlankSegmentsRead | subtitle_generator.py:273-298 | the text written, read in text mode and parsed, gives the same as BlankSegmentsDropped, when no stripped text holds `\r` |
| FfmpegStyle.HexToFfmpeg | subtitle_generator.py:165-170 | an empty or missing colour, or one without a leading `#`, gives white; a non-zero number raises, because it has no `startswith` |
| FfmpegStyle.Channels | subtitle_generator.py:169-170 | the result is `&H`, then at most six characters of the colour, then `&` |
| FfmpegStyle.Get | subtitle_generator.py:162-175 | `.get` gives the dictionary's value for a present key and the default for a missing one |
| FfmpegStyle.OneHash | subtitle_generator.py:168 | lstrip('#') removes the single leading `#` of a colour |
| FfmpegStyle.ChannelsOf | subtitle_generator.py:169-170 | the pieces [0:2], [2:4] and [4:6] come out in reverse order between `&H` and `&` |
| FfmpegStyle.ReadBack | subtitle_generator.py:169-170 | reading `&HBBGGRR&` back gives `#RRGGBB` |
| FfmpegStyle.HexRoundTrip | subtitle_generator.py:165-170 | `#RRGGBB` becomes `&HBBGGRR&`, and reading that back gives the colour again |
| FfmpegStyle.HexExample | subtitle_generator.py:165-170 | `#112233` becomes `&H332211&` |
| FfmpegStyle.ExtraHashesIgnored | subtitle_generator.py:168 | further leading `#`s change nothing |
| FfmpegStyle.HexLength | subtitle_generator.py:168-170 | slicing clamps: a colour shorter than six characters keeps all of them, and a longer one keeps six |
| FfmpegStyle.StyleString | subtitle_generator.py:156-177 | with no dictionary or an empty one the style is the default; otherwise it raises exactly when a colour raises |
| FfmpegStyle.StyleJoin | subtitle_generator.py:177 | the custom style is its five settings joined by commas, in the order FontSize, PrimaryColour, OutlineColour, Outline, MarginV |
| FfmpegStyle.SettingUnbroken | subtitle_generator.py:177 | a setting without commas is one comma-separated piece |
| FfmpegStyle.StyleSplits | subtitle_generator.py:177 | when no value holds a comma, splitting the style at commas gives the five settings back |
| FfmpegStyle.DefaultColours | subtitle_generator.py:172-173 | the default colours `#ffffff` and `#000000` become `&Hffffff&` and `&H000000&` |
| FfmpegStyle.MissingKeysDefaulted | subtitle_generator.py:161-177 | a dictionary with only a font size gets white text, a black outline, outline 2 and margin 10 |
| FfmpegStyle.FfmpegCommand | subtitle_generator.py:180-188 | nine arguments: `ffmpeg`, the input video third, the audio copied (`-c:a copy`), overwriting (`-y`), and the output path last |
| FfmpegStyle.FilterQuotes | subtitle_generator.py:184 | the filter argument quotes the SRT path and the style, which come back out when it is split at quotes |
| Compositing.FontSize | subtitle_generator.py:115 | the font size is height // 20, capped at 48, which it reaches exactly from height 960 on |
| Compositing.SubtitleClip | subtitle_generator.py:111-135 | there is no clip only when both TextClip attempts fail; a clip keeps the cue's text and times; the `label` clip sits at row height − 100 with the derived font size, and the fallback clip at the bottom in size 24 |
| Compositing.Clips | subtitle_generator.py:223-232 | there are no more clips than subtitles |
| Compositing.CollectClips | subtitle_generator.py:223-232 | the loop collects exactly `Clips(subs)` |
| Compositing.ClipsAppend | subtitle_generator.py:224-232 | the clips of two runs of subtitles are the clips of each, concatenated |
| Compositing.ClipsFromSubtitles | subtitle_generator.py:224-232 | there are no more clips than subtitles; every clip has non-empty text and comes from a subtitle with the same text and times |
| Compositing.ClipsAllLabelled | subtitle_generator.py:224-232 | when every subtitle has text and its `label` clip can be built, there is one clip per subtitle, in order |
| Compositing.ClipsOfBlankSubtitles | subtitle_generator.py:229 | subtitles with empty text give no clips |
| Pipeline.OpenVideo | subtitle_generator.py:219 | a video opens only if its file exists |
| Pipeline.TranscribeOutcome | subtitle_generator.py:41-54 | a transcript comes only from an existing audio file, and it is the model's transcription of that file |
| Pipeline.ReadSrtFile | subtitle_generator.py:271-275 | subtitles come only from an existing file that decodes as text |
| Pipeline.SrtFileRoundTrip | subtitle_generator.py:261-298 | reading the SRT file written for a transcript gives back its non-blank segments, in order, with their times and stripped text, when no stripped text holds `\r` |
| Pipeline.ExtractOutcome | subtitle_generator.py:21-39 | on success the audio file holds the video's sound track and nothing else changes; on failure the disk is unchanged |
| Pipeline.MoviePyOutcome | subtitle_generator.py:200-259 | on success the SRT file was read and the video opened, and only the output changes: it is the input video encoded with the clips of the subtitles read, at the video's height; on failure the disk is unchanged |
| Pipeline.MoviePyReadsTranscript | subtitle_generator.py:200-259 | when the temporary SRT holds a transcript, a successful MoviePy run encodes the video with the clips of the transcript's non-blank segments |
| Pipeline.FfmpegOutcome | subtitle_generator.py:137-199 | the compositors tried are none, FFmpeg, or FFmpeg then MoviePy; MoviePy is tried exactly when the style does not raise and ffmpeg is not found; only the output path can change, and no file disappears |
| Pipeline.WithFallback | subtitle_generator.py:338-344 | after a failed attempt MoviePy runs and its outcome replaces it; only the output path can change |
| Pipeline.AddSubtitlesOutcome | subtitle_generator.py:318-348 | the temporary SRT is gone afterwards; one to three compositor attempts, FFmpeg first; only the output and the temporary SRT change, and no other file disappears |
| Pipeline.FfmpegSucceeds | subtitle_generator.py:334-337 | when ffmpeg succeeds only FFmpeg runs, and the output is the input video burned with the transcript's SRT in the default style |
| Pipeline.FfmpegFailsFallsBack | subtitle_generator.py:338-344 | when ffmpeg exits non-zero or raises, MoviePy runs once on the same disk, and its result is the result |
| Pipeline.FallbackOverlaysTranscript | subtitle_generator.py:318-348 | when ffmpeg exits non-zero or raises, a successful fallback writes the video overlaid with the clips of the transcript's non-blank segments |
| Pipeline.FfmpegMissingFallsBack | subtitle_generator.py:196-199 | when ffmpeg is missing MoviePy runs inside the FFmpeg method; if it raises, it runs a second time |
| Pipeline.Basename | subtitle_generator.py:365 | the base name has no `/` |
| Pipeline.BasenameAfter | subtitle_generator.py:365 | the base name of `dir/name` is `name` |
| Pipeline.Root | subtitle_generator.py:365 | the root `splitext` keeps is a prefix of the name; when it cuts an extension, the extension starts at a `.` after some other character and holds no further `.` |
| Pipeline.Stem | subtitle_generator.py:365 | the stem holds no `/` |
| Pipeline.StemOf | subtitle_generator.py:365 | the stem of `dir/name.ext` is `name` |
| Pipeline.DefaultOutputs | subtitle_generator.py:364-370 | the default outputs of `dir/name.ext` are `name_with_subtitles.mp4` and `name_subtitles.srt` |
| Pipeline.DefaultOutputsDistinct | subtitle_generator.py:364-372 | the two default names differ from each other and from the temporary audio |
| Pipeline.PipelineOutcome | subtitle_generator.py:374-391 | the steps started are a prefix of extract, transcribe, write SRT, burn; success runs all four; the temporary SRT is gone once burning started; the extracted audio stays |
| Pipeline.GenerateOutcome | subtitle_generator.py:350-397 | as PipelineOutcome, with output names derived from the video's when none is given; clean-up is on unless switched off; with clean-up the temporary audio is gone whatever happened, and without it the extracted audio stays |
| Pipeline.DefaultsChosen | subtitle_generator.py:364-370 | omitting the output paths is passing the default names |
| Pipeline.ExtractFailureStops | subtitle_generator.py:374-376 | when extraction fails nothing else runs, and the disk is unchanged but for the clean-up |
| Pipeline.TranscribeFailureStops | subtitle_generator.py:378-379 | when transcription fails no SRT is written and nothing is burned |
| Pipeline.DeliverableKept | subtitle_generator.py:381-385 | after success the SRT output holds the transcript in SRT form, unless the run itself overwrites or removes that path |
| Pipeline.BurnedMatchesDeliverable | subtitle_generator.py:381-385 | when ffmpeg succeeds the subtitles burned into the video are the very SRT file delivered |
| Pipeline.TempNamedVideoLosesSrt | subtitle_generator.py:368-397 | for a video `temp.<ext>` with default names, a successful run reports `temp_subtitles.srt`, which it removed |
| Generator.Disk.Write | subtitle_generator.py:85 | writing a file replaces whatever was at its path and nothing else |
| Generator.Disk.Remove | subtitle_generator.py:348 | removing an existing file deletes only that path |
| Generator.SubtitleGenerator.constructor | subtitle_generator.py:10-19 | the generator keeps the model it loaded, by name; the model name defaults to "base" |
| Generator.SubtitleGenerator.ExtractAudio | subtitle_generator.py:21-39 | returns and leaves on disk what `ExtractOutcome` describes |
| Generator.SubtitleGenerator.TranscribeAudio | subtitle_generator.py:41-54 | the model's transcription of the audio file, which must exist; the disk is unchanged |
| Generator.SubtitleGenerator.CreateSrtFile | subtitle_generator.py:72-96 | the file at the path now holds `Document(segs)`, and no other path changes |
| Generator.SubtitleGenerator.ParseSrtFile | subtitle_generator.py:261-298 | the subtitles `ReadSrtFile` gives; an empty SRT file gives none |
| Generator.SubtitleGenerator.AddSubtitlesMoviePy | subtitle_generator.py:200-259 | result and disk as `MoviePyOutcome` describes |
| Generator.SubtitleGenerator.AddSubtitlesWithSrt | subtitle_generator.py:137-199 | result, compositors tried and disk as `FfmpegOutcome` describes |
| Generator.SubtitleGenerator.AddSubtitlesToVideo | subtitle_generator.py:318-348 | result, compositors tried and disk as `AddSubtitlesOutcome` describes |
| Generator.SubtitleGenerator.RunSteps | subtitle_generator.py:374-391 | result, steps started and disk as `PipelineOutcome` describes |
| Generator.SubtitleGenerator.GenerateSubtitles | subtitle_generator.py:350-397 | result, steps started and disk as `GenerateOutcome` describes |
| Config.SettingKey | config.py:62 | when the key holds no `=`, splitting a setting at `=` gives the key first and then the pieces of the value |
| Config.StyleStringOf | config.py:60-64 | the loop appends one setting per entry; the result is the settings joined by commas, and it is empty exactly for an empty table |
| Config.JoinNonEmpty | config.py:64 | joining at least one non-empty setting gives a non-empty string |
| Config.NoStrayComma | config.py:64 | when the first key and the last value hold no comma, the style string neither starts nor ends with a comma |
| Config.StyleStringSplits | config.py:60-64 | when no key or value holds a comma, splitting the style string at commas gives the settings back |
| Config.ShippedFont | config.py:26-29 | the first four settings are `FontSize=24`, white `PrimaryColour`, black `OutlineColour` and `Outline=2` |
| Config.ShippedLayout | config.py:30-32 | the last three are `BorderStyle=1`, `Alignment=2` and `MarginV=50` |
| Config.ShippedSettings | config.py:25-33 | the shipped table gives those seven settings in that order |
| Config.GetSubtitleStyleString | config.py:53-64 | the shipped string is `FontSize=24,PrimaryColour=&Hffffff&,OutlineColour=&H000000&,Outline=2,BorderStyle=1,Alignment=2,MarginV=50` |
| Config.ValidateConfig | config.py:67-84 | valid exactly when the model is tiny, base, small, medium or large and the style is a dict; an invalid model is reported first |
| Config.ShippedConfigValid | config.py:13 | the shipped configuration (model `base`) is valid |

## Left out

- Whisper's transcription, MoviePy's rendering and ffmpeg's encoding are oracles in `Env`. Their internals, the `word_timestamps` flag, and `load_model` failing in the constructor are not modelled.
- Times are whole milliseconds. The floating-point seconds Whisper returns, and their rounding in `format_time`, are not modelled, and neither are negative times.
- Timecode.ParseTimeFields: Python's `int()` and `float()` are modelled as optional surrounding whitespace plus ASCII digits, with at most one `.` for `float()`. Signs, underscores, exponents, `inf`/`nan` and non-ASCII digits are not accepted, and sub-millisecond digits are truncated.
- FfmpegStyle.StyleString: style values are integers, strings or `None`. Booleans, floats and nested values are not modelled.
- Exception messages are simplified stand-ins for Python's. One message serves every missing file, whichever library reports it, and the decode message names the path.
- The `Env` oracles are functions, so a tool called twice on the same input gives the same result. `FfmpegMissingFallsBack` relies on this: a MoviePy run that raises inside the FFmpeg method raises the same error when run again.
- Srt.BlankSegmentsRead and Pipeline.SrtFileRoundTrip: a stripped text that holds `\r` is not covered. Text mode turns it into a line break, which can split a cue.
- Pipeline.FallbackOverlaysTranscript: a video whose path is the temporary SRT name is not covered, because writing the SRT overwrites that video.
- File reads and writes always succeed, except where the model names the error (a missing file or a non-text SRT file). Partial files left by a tool that fails midway are not modelled.
- Clean-up of MoviePy clips (`close()`) and the console messages (`print`) have no effect on the model.
- Paths follow POSIX `os.path`; Windows separators are not modelled.
- The fps, codec and audio settings passed to `write_videofile` are not modelled; the written video records only its input and clips.
- `app.py`, `batch_process.py`, `example_usage.py`, `backend/` and `main()` are not part of this model.
- A concrete two-cue SRT document is not checked as a literal. The round trip is proved for every list of segments instead.
