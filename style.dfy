/** The FFmpeg side of add_subtitles_to_video_with_srt in
    subtitle_generator.py: the colour conversion, the force_style string
    and the ffmpeg argument list. */
module FfmpegStyle {
  import opened Strings
  import opened Values

  /** The style used when no style dictionary, or an empty one, is given. */
  const DefaultStyle: string := "FontSize=24,PrimaryColour=&Hffffff&,OutlineColour=&H000000&,Outline=2"

  /** The colour hex_to_ffmpeg falls back to: white. */
  const White: string := "&Hffffff&"

  /** The exception a truthy non-string colour raises at `startswith`. */
  const NotAString: string := "'int' object has no attribute 'startswith'"

  /** hex_to_ffmpeg: `#RRGGBB` becomes `&HBBGGRR&`. Every leading `#` is
      dropped and each channel is a clamped two-character slice; a false
      value, or a string not starting with `#`, gives white; a non-zero
      integer raises. */
  function HexToFfmpeg(v: Value): (r: Result<string>)
    ensures !Truthy(v) ==> r == Ok(White)
    ensures r.Err? <==> v.Int? && v.i != 0
    ensures v.Str? && v.s != [] && v.s[0] != '#' ==> r == Ok(White)
  {
    match v
    case Str(s) =>
      if s == [] || s[0] != '#' then Ok(White)
      else
        Ok(Channels(LStripChar(s, '#')))
    case Int(i) => if i == 0 then Ok(White) else Err(NotAString)
    case Null => Ok(White)
  }

  /** The pieces [0:2], [2:4], [4:6] of the hex digits, in reverse order. */
  function Channels(h: string): (r: string)
    ensures |r| == 3 + (if |h| < 6 then |h| else 6)
    ensures r[..2] == "&H" && r[|r| - 1] == '&'
  {
    "&H" + Slice(h, 4, 6) + Slice(h, 2, 4) + Slice(h, 0, 2) + "&"
  }

  /** One leading `#` before a digit string is all lstrip('#') removes. */
  lemma OneHash(h: string)
    requires h == [] || h[0] != '#'
    ensures LStripChar("#" + h, '#') == h
  {
  }

  /** Reads an `&HBBGGRR&` colour back as `#RRGGBB`. */
  function FfmpegToHex(c: string): Option<string> {
    if |c| == 9 && c[..2] == "&H" && c[8] == '&' then
      Some("#" + c[6..8] + c[4..6] + c[2..4])
    else None
  }

  /** The channels of three two-digit pieces, reversed. */
  lemma ChannelsOf(r: string, g: string, b: string)
    requires |r| == 2 && |g| == 2 && |b| == 2
    ensures Channels(r + g + b) == "&H" + b + g + r + "&"
  {
  }

  /** Reading a colour in FFmpeg's order back. */
  lemma ReadBack(r: string, g: string, b: string)
    requires |r| == 2 && |g| == 2 && |b| == 2
    ensures FfmpegToHex("&H" + b + g + r + "&") == Some("#" + r + g + b)
  {
    var c := "&H" + b + g + r + "&";
    assert c[..2] == "&H" && c[2..4] == b && c[4..6] == g && c[6..8] == r;
  }

  /** A six-digit colour goes to FFmpeg's order with its channels reversed,
      and reading it back gives the colour again. */
  lemma HexRoundTrip(r: string, g: string, b: string)
    requires |r| == 2 && |g| == 2 && |b| == 2 && r[0] != '#'
    ensures HexToFfmpeg(Str("#" + r + g + b)) == Ok("&H" + b + g + r + "&")
    ensures FfmpegToHex(HexToFfmpeg(Str("#" + r + g + b)).value) == Some("#" + r + g + b)
  {
    var h := r + g + b;
    OneHash(h);
    assert "#" + r + g + b == "#" + h;
    ChannelsOf(r, g, b);
    ReadBack(r, g, b);
  }

  /** `#112233` becomes `&H332211&`. */
  lemma HexExample()
    ensures HexToFfmpeg(Str("#112233")) == Ok("&H332211&")
  {
    assert "#112233" == "#" + "11" + "22" + "33";
    assert "&H" + "33" + "22" + "11" + "&" == "&H332211&";
    HexRoundTrip("11", "22", "33");
  }

  /** lstrip('#') drops every leading `#`: extra ones change nothing. */
  lemma ExtraHashesIgnored(s: string)
    requires s != [] && s[0] == '#'
    ensures HexToFfmpeg(Str("#" + s)) == HexToFfmpeg(Str(s))
  {
  }

  /** Slicing clamps: a colour shorter than six characters loses no
      character and gains none, and one longer keeps only six. */
  lemma HexLength(h: string)
    requires h != [] && h[0] != '#'
    ensures var n := if |h| < 6 then |h| else 6;
      |HexToFfmpeg(Str("#" + h)).value| == n + 3
  {
  }

  /** dict.get with a default. */
  function Get(m: map<string, Value>, key: string, default: Value): (v: Value)
    ensures key in m ==> v == m[key]
    ensures key !in m ==> v == default
  {
    if key in m then m[key] else default
  }

  /** The style string for a style_config that may be None: the default
      one when there is no or an empty dictionary, otherwise the five
      settings with their defaults (size 24, white text, black outline,
      outline 2, margin 10). A colour that is a non-zero number raises. */
  function StyleString(config: Option<map<string, Value>>): (r: Result<string>)
    ensures config.None? || config.value == map[] ==> r == Ok(DefaultStyle)
    ensures r.Err? <==> (config.Some? && config.value != map[] &&
      (HexToFfmpeg(Get(config.value, "fontColor", Str("#ffffff"))).Err?
       || HexToFfmpeg(Get(config.value, "outlineColor", Str("#000000"))).Err?))
  {
    if config.None? || config.value == map[] then Ok(DefaultStyle)
    else
      var c := config.value;
      var fontSize := Get(c, "fontSize", Int(24));
      var primary :- HexToFfmpeg(Get(c, "fontColor", Str("#ffffff")));
      var outline :- HexToFfmpeg(Get(c, "outlineColor", Str("#000000")));
      var width := Get(c, "outlineWidth", Int(2));
      var margin := Get(c, "marginV", Int(10));
      Ok(StyleFields(Show(fontSize), primary, outline, Show(width), Show(margin)))
  }

  /** The f-string of a custom style. */
  function StyleFields(size: string, primary: string, outline: string, width: string, margin: string): string {
    "FontSize=" + size + "," + "PrimaryColour=" + primary + "," + "OutlineColour=" + outline
      + "," + "Outline=" + width + "," + "MarginV=" + margin
  }

  /** The parts of a custom style, one `Key=value` setting each. */
  function StyleSettings(size: string, primary: string, outline: string, width: string, margin: string): seq<string> {
    ["FontSize=" + size, "PrimaryColour=" + primary, "OutlineColour=" + outline, "Outline=" + width, "MarginV=" + margin]
  }

  /** A join of five parts, written out. */
  lemma JoinFive(sep: string, parts: seq<string>)
    requires |parts| == 5
    ensures Join(sep, parts) == parts[0] + sep + parts[1] + sep + parts[2] + sep + parts[3] + sep + parts[4]
  {
    var a, b, c, d, e := parts[0], parts[1], parts[2], parts[3], parts[4];
    assert parts == [a] + ([b] + ([c] + ([d] + [e])));
    JoinCons(sep, d, [e]);
    JoinCons(sep, c, [d] + [e]);
    JoinCons(sep, b, [c] + ([d] + [e]));
    JoinCons(sep, a, [b] + ([c] + ([d] + [e])));
  }

  /** A `Key=value` setting without commas is a clean piece between commas. */
  lemma SettingUnbroken(key: string, value: string)
    requires NoComma(key) && NoComma(value)
    ensures Unbroken(key + value, ",")
  {
    var p := key + value;
    forall i | 0 <= i < |p|
      ensures p[i] != ','
    {
      if i < |key| { assert p[i] == key[i]; } else { assert p[i] == value[i - |key|]; }
    }
    UnbrokenByFirstChar(p, ",");
  }

  /** A custom style is its five settings joined by commas. */
  lemma StyleJoin(size: string, primary: string, outline: string, width: string, margin: string)
    ensures StyleFields(size, primary, outline, width, margin) == Join(",", StyleSettings(size, primary, outline, width, margin))
  {
    JoinFive(",", StyleSettings(size, primary, outline, width, margin));
  }

  /** A custom style is its five settings joined by commas, in the order
      FontSize, PrimaryColour, OutlineColour, Outline, MarginV; when no
      value holds a comma, splitting at commas gives them back. */
  lemma StyleSplits(size: string, primary: string, outline: string, width: string, margin: string)
    requires NoComma(size) && NoComma(primary) && NoComma(outline) && NoComma(width) && NoComma(margin)
    ensures var parts := StyleSettings(size, primary, outline, width, margin);
      StyleFields(size, primary, outline, width, margin) == Join(",", parts)
      && Split(StyleFields(size, primary, outline, width, margin), ",") == parts
  {
    var parts := StyleSettings(size, primary, outline, width, margin);
    StyleJoin(size, primary, outline, width, margin);
    SettingUnbroken("FontSize=", size);
    SettingUnbroken("PrimaryColour=", primary);
    SettingUnbroken("OutlineColour=", outline);
    SettingUnbroken("Outline=", width);
    SettingUnbroken("MarginV=", margin);
    SplitJoin(parts, ",");
  }

  /** The two default colours, white text and black outline. */
  lemma DefaultColours()
    ensures HexToFfmpeg(Str("#ffffff")) == Ok("&Hffffff&")
    ensures HexToFfmpeg(Str("#000000")) == Ok("&H000000&")
  {
    assert "#ffffff" == "#" + "ff" + "ff" + "ff";
    assert "#000000" == "#" + "00" + "00" + "00";
    assert "&H" + "ff" + "ff" + "ff" + "&" == "&Hffffff&";
    assert "&H" + "00" + "00" + "00" + "&" == "&H000000&";
    HexRoundTrip("ff", "ff", "ff");
    HexRoundTrip("00", "00", "00");
  }

  /** A non-empty dictionary gets every setting it leaves out from the
      defaults: with only `fontSize` given, the rest are white, black, 2
      and 10, and MarginV appears although the default style lacks it. */
  lemma MissingKeysDefaulted(size: Value)
    ensures StyleString(Some(map["fontSize" := size]))
         == Ok(StyleFields(Show(size), "&Hffffff&", "&H000000&", "2", "10"))
  {
    var c := map["fontSize" := size];
    assert c != map[] by { assert "fontSize" in c; }
    assert Get(c, "fontSize", Int(24)) == size;
    assert Get(c, "fontColor", Str("#ffffff")) == Str("#ffffff");
    assert Get(c, "outlineColor", Str("#000000")) == Str("#000000");
    assert Get(c, "outlineWidth", Int(2)) == Int(2);
    assert Get(c, "marginV", Int(10)) == Int(10);
    assert Show(Int(2)) == "2" && Show(Int(10)) == "10";
    DefaultColours();
  }

  /** The ffmpeg argument list: input, the subtitles filter with the style
      forced, audio copied, output overwritten. */
  function FfmpegCommand(video: string, srt: string, style: string, output: string): (cmd: seq<string>)
    ensures |cmd| == 9 && cmd[0] == "ffmpeg" && cmd[2] == video && cmd[8] == output
    ensures cmd[5..8] == ["-c:a", "copy", "-y"]
  {
    ["ffmpeg", "-i", video, "-vf", "subtitles=" + "'" + srt + "'" + ":force_style=" + "'" + style + "'",
     "-c:a", "copy", "-y", output]
  }

  predicate NoQuote(s: string) {
    forall i :: 0 <= i < |s| ==> s[i] != '\''
  }

  /** The filter argument quotes the SRT path and the style: when neither
      holds a quote, cutting it at quotes gives them back in their places. */
  lemma FilterQuotes(video: string, srt: string, style: string, output: string)
    requires NoQuote(srt) && NoQuote(style)
    ensures Split(FfmpegCommand(video, srt, style, output)[4], "'") == ["subtitles=", srt, ":force_style=", style, ""]
  {
    var parts := ["subtitles=", srt, ":force_style=", style, ""];
    var arg := "subtitles=" + "'" + srt + "'" + ":force_style=" + "'" + style + "'";
    JoinFive("'", parts);
    assert arg + "" == arg;
    UnbrokenByFirstChar(srt, "'");
    UnbrokenByFirstChar(style, "'");
    UnbrokenByFirstChar("subtitles=", "'");
    UnbrokenByFirstChar(":force_style=", "'");
    UnbrokenByFirstChar("", "'");
    SplitJoin(parts, "'");
  }
}
