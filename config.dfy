/** config.py: the Whisper model setting, the FFmpeg style table with its
    conversion to a `Key=value,...` string, and the configuration check. */
module Config {
  import opened Strings
  import opened Values

  /** WHISPER_MODEL */
  const WhisperModel: string := "base"

  /** The model sizes Whisper offers, smallest first. */
  const ValidModels: seq<string> := ["tiny", "base", "small", "medium", "large"]

  /** SUBTITLE_STYLE as its entries in insertion order, the order a Python
      dict iterates in. */
  const SubtitleStyle: seq<(string, Value)> := [
    ("FontSize", Int(24)),
    ("PrimaryColour", Str("&Hffffff&")),
    ("OutlineColour", Str("&H000000&")),
    ("Outline", Int(2)),
    ("BorderStyle", Int(1)),
    ("Alignment", Int(2)),
    ("MarginV", Int(50))]

  /** The string the shipped table converts to. */
  const ShippedStyleString: string :=
    "FontSize=24" + "," + "PrimaryColour=&Hffffff&" + "," + "OutlineColour=&H000000&" + "," + "Outline=2" + ","
    + "BorderStyle=1" + "," + "Alignment=2" + "," + "MarginV=50"

  /** One entry as `key=value`, the value formatted as Python's f-string does. */
  function Setting(entry: (string, Value)): (s: string)
    ensures |s| > |entry.0|
  {
    entry.0 + "=" + Show(entry.1)
  }

  /** A setting whose key holds no `=` splits at its first `=` back into
      the key and the value's text. */
  lemma SettingKey(entry: (string, Value))
    requires NoChar(entry.0, '=')
    ensures var parts := Split(Setting(entry), "=");
      |parts| >= 2 && parts[0] == entry.0 && parts[1..] == Split(Show(entry.1), "=")
  {
    UnbrokenByFirstChar(entry.0, "=");
    SplitHead(entry.0, Show(entry.1), "=");
  }

  /** The settings of a table, entry by entry. */
  function Settings(table: seq<(string, Value)>): (parts: seq<string>)
    ensures |parts| == |table|
  {
    seq(|table|, i requires 0 <= i < |table| => Setting(table[i]))
  }

  /** get_subtitle_style_string on a table: the settings collected one
      entry at a time, then joined with commas. */
  method StyleStringOf(table: seq<(string, Value)>) returns (s: string)
    ensures s == Join(",", Settings(table))
    ensures table == [] <==> s == []
  {
    var parts: seq<string> := [];
    for i := 0 to |table|
      invariant parts == Settings(table[..i])
    {
      parts := parts + [Setting(table[i])];
    }
    assert table[..|table|] == table;
    s := Join(",", parts);
    if table != [] {
      JoinNonEmpty(parts);
    }
  }

  /** Joining at least one non-empty setting gives a non-empty string. */
  lemma {:induction false} JoinNonEmpty(parts: seq<string>)
    requires parts != [] && parts[0] != []
    ensures Join(",", parts) != []
  {
  }

  /** Commas only separate settings: a style string whose first key and
      last value hold no comma neither starts nor ends with one. */
  lemma NoStrayComma(table: seq<(string, Value)>)
    requires table != []
    requires NoComma(table[0].0) && NoComma(Show(table[|table| - 1].1))
    ensures var s := Join(",", Settings(table)); s != [] && s[0] != ',' && s[|s| - 1] != ','
  {
    var parts := Settings(table);
    JoinEnds(",", parts);
    var first, last := parts[0], parts[|parts| - 1];
    var key, value := table[0].0, Show(table[|table| - 1].1);
    if key != [] {
      assert first[0] == key[0];
    } else {
      assert first[0] == '=';
    }
    if value != [] {
      assert last[|last| - 1] == value[|value| - 1];
    } else {
      assert last[|last| - 1] == '=';
    }
  }

  /** When no key and no formatted value holds a comma, splitting the style
      string at commas gives back the settings, entry by entry. */
  lemma StyleStringSplits(table: seq<(string, Value)>)
    requires table != []
    requires forall i :: 0 <= i < |table| ==> NoComma(table[i].0) && NoComma(Show(table[i].1))
    ensures Split(Join(",", Settings(table)), ",") == Settings(table)
  {
    var parts := Settings(table);
    forall k | 0 <= k < |parts|
      ensures Unbroken(parts[k], ",")
    {
      var key, value := table[k].0, Show(table[k].1);
      forall i | 0 <= i < |parts[k]|
        ensures parts[k][i] != ','
      {
        if i < |key| {
          assert parts[k][i] == key[i];
        } else if i > |key| {
          assert parts[k][i] == value[i - |key| - 1];
        }
      }
      UnbrokenByFirstChar(parts[k], ",");
    }
    SplitJoin(parts, ",");
  }

  /** Small non-negative numbers format as their digits. */
  lemma SmallNumbers()
    ensures Show(Int(1)) == "1" && Show(Int(2)) == "2"
    ensures Show(Int(24)) == "24" && Show(Int(50)) == "50"
  {
    assert Decimal(1) == "1";
    assert Decimal(2) == "2";
    assert Decimal(24) == Decimal(2) + "4";
    assert Decimal(5) == "5";
    assert Decimal(50) == Decimal(5) + "0";
  }

  /** The shipped table gives the settings FontSize=24, PrimaryColour white,
      OutlineColour black, Outline=2, BorderStyle=1, Alignment=2, MarginV=50,
      in that order. */
  lemma ShippedSettings()
    ensures Settings(SubtitleStyle) == ["FontSize=24", "PrimaryColour=&Hffffff&", "OutlineColour=&H000000&",
                                        "Outline=2", "BorderStyle=1", "Alignment=2", "MarginV=50"]
  {
    ShippedFont();
    ShippedLayout();
  }

  /** The size, colours and outline of the shipped table. */
  lemma ShippedFont()
    ensures Settings(SubtitleStyle)[0] == "FontSize=24" && Settings(SubtitleStyle)[1] == "PrimaryColour=&Hffffff&"
    ensures Settings(SubtitleStyle)[2] == "OutlineColour=&H000000&" && Settings(SubtitleStyle)[3] == "Outline=2"
  {
    ShippedSizes();
    ShippedColours();
  }

  lemma ShippedSizes()
    ensures Settings(SubtitleStyle)[0] == "FontSize=24" && Settings(SubtitleStyle)[3] == "Outline=2"
  {
    SmallNumbers();
    var parts := Settings(SubtitleStyle);
    assert parts[0] == "FontSize" + "=" + "24";
    assert parts[3] == "Outline" + "=" + "2";
  }

  lemma ShippedColours()
    ensures Settings(SubtitleStyle)[1] == "PrimaryColour=&Hffffff&"
    ensures Settings(SubtitleStyle)[2] == "OutlineColour=&H000000&"
  {
    var parts := Settings(SubtitleStyle);
    assert parts[1] == "PrimaryColour" + "=" + "&Hffffff&";
    assert parts[2] == "OutlineColour" + "=" + "&H000000&";
  }

  /** The border style, alignment and margin of the shipped table. */
  lemma ShippedLayout()
    ensures Settings(SubtitleStyle)[4] == "BorderStyle=1" && Settings(SubtitleStyle)[5] == "Alignment=2"
    ensures Settings(SubtitleStyle)[6] == "MarginV=50"
  {
    SmallNumbers();
    var parts := Settings(SubtitleStyle);
    assert parts[4] == "BorderStyle" + "=" + "1";
    assert parts[5] == "Alignment" + "=" + "2";
    assert parts[6] == "MarginV" + "=" + "50";
  }

  /** Seven settings joined: each one followed by the separator but the last. */
  lemma JoinSeven(sep: string, parts: seq<string>)
    requires |parts| == 7
    ensures Join(sep, parts) == parts[0] + sep + parts[1] + sep + parts[2] + sep + parts[3] + sep
                                + parts[4] + sep + parts[5] + sep + parts[6]
  {
    var p := parts;
    assert Join(sep, p[..1]) == p[0];
    JoinAppend(sep, p[..1], p[1]);
    assert p[..1] + [p[1]] == p[..2];
    JoinAppend(sep, p[..2], p[2]);
    assert p[..2] + [p[2]] == p[..3];
    JoinAppend(sep, p[..3], p[3]);
    assert p[..3] + [p[3]] == p[..4];
    JoinAppend(sep, p[..4], p[4]);
    assert p[..4] + [p[4]] == p[..5];
    JoinAppend(sep, p[..5], p[5]);
    assert p[..5] + [p[5]] == p[..6];
    JoinAppend(sep, p[..6], p[6]);
    assert p[..6] + [p[6]] == p[..7];
    assert p[..7] == p;
  }

  /** get_subtitle_style_string: the shipped table converted. */
  method GetSubtitleStyleString() returns (s: string)
    ensures s == ShippedStyleString
  {
    s := StyleStringOf(SubtitleStyle);
    ShippedSettings();
    JoinSeven(",", Settings(SubtitleStyle));
  }

  /** What validate_config concludes: the model is checked first, then the
      type of the style table. */
  datatype Verdict = Valid | InvalidModel(model: string) | StyleNotADict

  /** validate_config, on the configured model name and whether
      SUBTITLE_STYLE is a dict. */
  function ValidateConfig(model: string, styleIsDict: bool): (v: Verdict)
    ensures v == Valid <==> model in ValidModels && styleIsDict
    ensures v.InvalidModel? <==> model !in ValidModels
    ensures v.InvalidModel? ==> v.model == model
    ensures v == StyleNotADict ==> model in ValidModels
  {
    if model !in ValidModels then InvalidModel(model)
    else if !styleIsDict then StyleNotADict
    else Valid
  }

  /** The shipped configuration is valid. */
  lemma ShippedConfigValid()
    ensures ValidateConfig(WhisperModel, true) == Valid
  {
  }
}
