/**
 * The argument translation of the `ffmpeg-hirusha.py` front end: the options
 * left by the option parser become the ordered token list handed to ffmpeg
 * for NVIDIA-accelerated (CUDA decode, h264_nvenc encode) transcoding.
 */
module EasyFfmpeg {
  import opened Wrappers
  import opened Decimal
  import opened PosixPath

  // ---------------------------------------------------------------------------
  // Python truthiness of the optional option values

  /** `if output_filename:` -- a string is true when it has a character. */
  function IsGivenName(o: Option<string>): (b: bool)
    ensures !b <==> o == None || o == Some("")
  {
    o.Some? && |o.value| > 0
  }

  /** `if args.bitrate:` -- absent and 0 are both false; negative values are true. */
  function IsNonZero(o: Option<int>): (b: bool)
    ensures !b <==> o == None || o == Some(0)
  {
    o.Some? && o.value != 0
  }

  // ---------------------------------------------------------------------------
  // Output name and rate formatting

  /** `generate_output_filename`: the explicit name, or the input with `-out` before its extension. */
  function GenerateOutputFilename(input: string, output: Option<string>): (r: string)
    ensures IsGivenName(output) ==> r == output.value
    ensures !IsGivenName(output) ==> |r| == |input| + 4
  {
    if IsGivenName(output) then output.value
    else
      var s := Splitext(input);
      s.root + "-out" + s.ext
  }

  /** A non-empty explicit name is used as it is, whatever its shape. */
  lemma ExplicitOutputUnchanged(input: string, output: string)
    requires output != ""
    ensures GenerateOutputFilename(input, Some(output)) == output
  {
  }

  /**
   * A derived name splits into the input's root with `-out` appended and the
   * input's own extension, while that root and extension make up the input.
   */
  lemma {:induction false} DerivedOutputKeepsExtension(input: string, output: Option<string>)
    requires !IsGivenName(output)
    ensures var s, r := Splitext(input), GenerateOutputFilename(input, output);
      s.root + s.ext == input && Splitext(r) == PathSplit(s.root + "-out", s.ext)
  {
    SplitextInsertOut(input);
  }

  /** A rate in kbit/s as ffmpeg reads it: `f"{n}k"`. The token reads back as `n`. */
  function Kilo(n: int): (t: string)
    ensures ParseKilo(t) == Some(n)
    ensures |t| >= 2 && t[|t| - 1] == 'k'
  {
    var t := IntToString(n) + "k";
    assert t[..|t| - 1] == IntToString(n);
    IntToStringRoundTrip(n);
    t
  }

  /** Reads back a token written by `Kilo`. */
  function ParseKilo(t: string): Option<int> {
    if |t| > 0 && t[|t| - 1] == 'k' then ParseInt(t[..|t| - 1]) else None
  }

  /** `calculate_bufsize`: the rate token for twice the bitrate. */
  function CalculateBufsize(bitrate: int): (r: string)
    ensures ParseKilo(r) == Some(2 * bitrate)
    ensures r[|r| - 1] == 'k'
  {
    Kilo(bitrate * 2)
  }

  // ---------------------------------------------------------------------------
  // Resolution table

  /** The eight values the option parser accepts for `--resolution`. */
  datatype Resolution = R240p | R360p | R480p | R540p | R720p | R1080p | R1440p | R4K {
    function Label(): string {
      match this
      case R240p => "240p"
      case R360p => "360p"
      case R480p => "480p"
      case R540p => "540p"
      case R720p => "720p"
      case R1080p => "1080p"
      case R1440p => "1440p"
      case R4K => "4K"
    }
  }

  /** The `choices` list of `--resolution`. */
  const Choices: seq<string> := ["240p", "360p", "480p", "540p", "720p", "1080p", "1440p", "4K"]

  /** The `resolutions` dictionary: label to `width:height`. */
  const Resolutions: map<string, string> := map[
    "240p" := "426:240",
    "360p" := "640:360",
    "480p" := "854:480",
    "540p" := "960:540",
    "720p" := "1280:720",
    "1080p" := "1920:1080",
    "1440p" := "2560:1440",
    "4K" := "3840:2160"
  ]

  /** `W:H` with a decimal width and height. */
  ghost predicate IsSize(d: string) {
    exists i :: 0 < i < |d| - 1 && d[i] == ':' && AllDigits(d[..i]) && AllDigits(d[i + 1..])
  }

  lemma JoinedIsSize(w: string, h: string)
    requires |w| > 0 && |h| > 0 && AllDigits(w) && AllDigits(h)
    ensures IsSize(w + ":" + h)
  {
    var d := w + ":" + h;
    assert d[|w|] == ':' && d[..|w|] == w && d[|w| + 1..] == h;
  }

  /** Every table entry is a `W:H` size. */
  lemma TableEntryIsSize(r: Resolution)
    ensures r.Label() in Resolutions && IsSize(Resolutions[r.Label()])
  {
    match r
    case R240p =>
      assert Resolutions[r.Label()] == "426" + ":" + "240";
      JoinedIsSize("426", "240");
    case R360p =>
      assert Resolutions[r.Label()] == "640" + ":" + "360";
      JoinedIsSize("640", "360");
    case R480p =>
      assert Resolutions[r.Label()] == "854" + ":" + "480";
      JoinedIsSize("854", "480");
    case R540p =>
      assert Resolutions[r.Label()] == "960" + ":" + "540";
      JoinedIsSize("960", "540");
    case R720p =>
      assert Resolutions[r.Label()] == "1280" + ":" + "720";
      JoinedIsSize("1280", "720");
    case R1080p =>
      assert Resolutions[r.Label()] == "1920" + ":" + "1080";
      JoinedIsSize("1920", "1080");
    case R1440p =>
      assert Resolutions[r.Label()] == "2560" + ":" + "1440";
      JoinedIsSize("2560", "1440");
    case R4K =>
      assert Resolutions[r.Label()] == "3840" + ":" + "2160";
      JoinedIsSize("3840", "2160");
  }

  /**
   * The argument of `-vf`. The label is one of the accepted choices and a key
   * of the table, so the dictionary lookup cannot miss.
   */
  function ScaleFilter(r: Resolution): (f: string)
    ensures r.Label() in Choices && r.Label() in Resolutions
    ensures |f| > 6 && f[..6] == "scale="
  {
    LabelsAreChoices();
    "scale=" + Resolutions[r.Label()]
  }

  /** Every scale argument is `scale=W:H` with a decimal width and height. */
  lemma ScaleFilterIsSize(r: Resolution)
    ensures var f := ScaleFilter(r); |f| > 6 && f[..6] == "scale=" && IsSize(f[6..])
  {
    TableEntryIsSize(r);
    assert ScaleFilter(r)[6..] == Resolutions[r.Label()];
  }

  /** The labels are exactly the accepted choices, and each has a table entry. */
  lemma LabelsAreChoices()
    ensures forall r: Resolution :: r.Label() in Choices && r.Label() in Resolutions
    ensures forall s :: s in Choices ==> exists r: Resolution :: r.Label() == s
    ensures Resolutions.Keys == set s | s in Choices
  {
    assert R240p.Label() == Choices[0];
    assert R360p.Label() == Choices[1];
    assert R480p.Label() == Choices[2];
    assert R540p.Label() == Choices[3];
    assert R720p.Label() == Choices[4];
    assert R1080p.Label() == Choices[5];
    assert R1440p.Label() == Choices[6];
    assert R4K.Label() == Choices[7];
  }

  /** The table has no two equal entries. */
  lemma TableEntriesDistinct(a: Resolution, b: Resolution)
    ensures Resolutions[a.Label()] == Resolutions[b.Label()] ==> a == b
  {
    var da := Resolutions[a.Label()];
    if da == Resolutions[b.Label()] {
      match a
      case R240p => assert da[..3] == "426";
      case R360p => assert da[..3] == "640";
      case R480p => assert da[..3] == "854";
      case R540p => assert da[..3] == "960";
      case R720p => assert da[..4] == "1280";
      case R1080p => assert da[..4] == "1920";
      case R1440p => assert da[..4] == "2560";
      case R4K => assert da[..4] == "3840";
    }
  }

  /** Distinct resolutions scale to distinct sizes. */
  lemma ScaleFilterInjective(a: Resolution, b: Resolution)
    ensures ScaleFilter(a) == ScaleFilter(b) ==> a == b
  {
    assert ScaleFilter(a)[6..] == Resolutions[a.Label()];
    assert ScaleFilter(b)[6..] == Resolutions[b.Label()];
    TableEntriesDistinct(a, b);
  }

  // ---------------------------------------------------------------------------
  // Command assembly

  /** The parsed options: what `parse_args` hands to the command assembly. */
  datatype Request = Request(
    input: string,
    output: Option<string>,
    resolution: Option<Resolution>,
    bitrate: Option<int>,
    audioBitrate: Option<int>,
    other: Option<seq<string>>)

  function InputArgs(input: string): seq<string> {
    ["ffmpeg", "-hwaccel_device", "0", "-hwaccel", "cuda", "-i", input]
  }

  function ScaleArgs(res: Option<Resolution>): seq<string> {
    if res.Some? then ["-vf", ScaleFilter(res.value)] else []
  }

  function VideoBitrateArgs(b: Option<int>): seq<string> {
    if IsNonZero(b) then ["-b:v", Kilo(b.value), "-maxrate", Kilo(b.value), "-bufsize", CalculateBufsize(b.value)]
    else []
  }

  function AudioArgs(a: Option<int>): seq<string> {
    if IsNonZero(a) then ["-c:a", "aac", "-b:a", Kilo(a.value)] else []
  }

  function OtherArgs(o: Option<seq<string>>): seq<string> {
    if o.Some? then o.value else []
  }

  function OutputArgs(output: string): seq<string> {
    ["-c:v", "h264_nvenc", "-preset", "slow", "-c:a", "copy", output]
  }

  /**
   * The token list for a request and an output name, block by block in the
   * order ffmpeg receives them: 14 fixed tokens, 2, 6 and 4 for the optional
   * blocks, and the pass-through tokens.
   */
  function CommandFor(req: Request, outputName: string): (cmd: seq<string>)
    ensures |cmd| == 14 + Count(req.resolution.Some?, 2) + Count(IsNonZero(req.bitrate), 6)
      + Count(IsNonZero(req.audioBitrate), 4) + |OtherArgs(req.other)|
  {
    InputArgs(req.input) + ScaleArgs(req.resolution) + VideoBitrateArgs(req.bitrate)
      + AudioArgs(req.audioBitrate) + OtherArgs(req.other) + OutputArgs(outputName)
  }

  /** The token list `main` hands to ffmpeg: the input follows `-i`, and the output name comes last. */
  function Command(req: Request): (cmd: seq<string>)
    ensures |cmd| >= 14 && cmd[5] == "-i" && cmd[6] == req.input
    ensures cmd[|cmd| - 1] == GenerateOutputFilename(req.input, req.output)
  {
    var name := GenerateOutputFilename(req.input, req.output);
    var cmd := CommandFor(req, name);
    CommandFrame(req, name);
    assert cmd[5] == cmd[..7][5] && cmd[6] == cmd[..7][6];
    assert cmd[|cmd| - 1] == cmd[|cmd| - 7..][6];
    cmd
  }

  /** Builds the command as `main` does, by growing one list. */
  method BuildCommand(req: Request) returns (cmd: seq<string>)
    ensures cmd == Command(req)
  {
    cmd := ["ffmpeg", "-hwaccel_device", "0", "-hwaccel", "cuda", "-i", req.input];
    assert cmd == InputArgs(req.input);
    if req.resolution.Some? {
      cmd := cmd + ["-vf", "scale=" + Resolutions[req.resolution.value.Label()]];
    }
    assert cmd == InputArgs(req.input) + ScaleArgs(req.resolution);
    if IsNonZero(req.bitrate) {
      var b := req.bitrate.value;
      cmd := cmd + ["-b:v", Kilo(b), "-maxrate", Kilo(b), "-bufsize", CalculateBufsize(b)];
    }
    ghost var upToVideo := InputArgs(req.input) + ScaleArgs(req.resolution) + VideoBitrateArgs(req.bitrate);
    assert cmd == upToVideo;
    if IsNonZero(req.audioBitrate) {
      cmd := cmd + ["-c:a", "aac", "-b:a", Kilo(req.audioBitrate.value)];
    }
    assert cmd == upToVideo + AudioArgs(req.audioBitrate);
    if req.other.Some? {
      cmd := cmd + req.other.value;
    }
    assert cmd == upToVideo + AudioArgs(req.audioBitrate) + OtherArgs(req.other);
    var outputFilename := GenerateOutputFilename(req.input, req.output);
    cmd := cmd + ["-c:v", "h264_nvenc", "-preset", "slow", "-c:a", "copy", outputFilename];
  }

  // ---------------------------------------------------------------------------
  // Properties of the command

  function Count(present: bool, n: nat): nat {
    if present then n else 0
  }

  /** The block `x` sits at position `|p|` of `p + x + rest`. */
  lemma BlockAt(p: seq<string>, x: seq<string>, rest: seq<string>)
    ensures |p + x + rest| >= |p| + |x| && (p + x + rest)[|p|..|p| + |x|] == x
  {
    assert p + x + rest == p + (x + rest);
  }

  /** A block `x` placed at position `|p|` of `p + rest`. */
  lemma InsertBlock(p: seq<string>, x: seq<string>, rest: seq<string>)
    ensures |p + rest| >= |p|
    ensures p + x + rest == (p + rest)[..|p|] + x + (p + rest)[|p|..]
  {
    assert (p + rest)[..|p|] == p && (p + rest)[|p|..] == rest;
  }

  /**
   * Regrouping concatenated blocks. The layout lemmas call these rather than
   * asserting the same equations inline: as separate lemmas the regrouping is
   * proved once, away from the definitions of the blocks, which keeps each
   * layout proof small.
   */
  lemma Regroup(x: seq<string>, y: seq<string>, z: seq<string>)
    ensures x + y + z == x + (y + z)
  {
  }

  /** Regrouping the last three of four blocks. */
  lemma Assoc(x: seq<string>, a: seq<string>, o: seq<string>, t: seq<string>)
    ensures x + a + o + t == x + (a + o + t)
  {
  }

  /** Every command opens with the CUDA decode and input tokens and closes with the encoder and output tokens. */
  lemma CommandFrame(req: Request, outputName: string)
    ensures var cmd := CommandFor(req, outputName);
      |cmd| >= 14 &&
      cmd[..7] == ["ffmpeg", "-hwaccel_device", "0", "-hwaccel", "cuda", "-i", req.input] &&
      cmd[|cmd| - 7..] == ["-c:v", "h264_nvenc", "-preset", "slow", "-c:a", "copy", outputName]
  {
  }

  /** A resolution emits `-vf scale=W:H` right after the input tokens. */
  lemma ScaleBlockAt(req: Request, outputName: string)
    requires req.resolution.Some?
    ensures var cmd := CommandFor(req, outputName);
      |cmd| >= 9 && cmd[7..9] == ["-vf", "scale=" + Resolutions[req.resolution.value.Label()]]
  {
    var p, x := InputArgs(req.input), ScaleArgs(req.resolution);
    var v, a := VideoBitrateArgs(req.bitrate), AudioArgs(req.audioBitrate);
    var o, t := OtherArgs(req.other), OutputArgs(outputName);
    assert CommandFor(req, outputName) == p + x + (v + (a + o + t)) by {
      Assoc(p + x + v, a, o, t);
      Regroup(p + x, v, a + o + t);
    }
    BlockAt(p, x, v + (a + o + t));
  }

  /** A non-zero bitrate `b` emits `-b:v bk -maxrate bk -bufsize (2b)k` right after the scale tokens. */
  lemma VideoBitrateBlockAt(req: Request, outputName: string)
    requires IsNonZero(req.bitrate)
    ensures var cmd, b, i := CommandFor(req, outputName), req.bitrate.value, 7 + Count(req.resolution.Some?, 2);
      |cmd| >= i + 6 && cmd[i..i + 6] == ["-b:v", Kilo(b), "-maxrate", Kilo(b), "-bufsize", Kilo(2 * b)]
  {
    var b := req.bitrate.value;
    var p := InputArgs(req.input) + ScaleArgs(req.resolution);
    var x := ["-b:v", Kilo(b), "-maxrate", Kilo(b), "-bufsize", Kilo(2 * b)];
    var a, o, t := AudioArgs(req.audioBitrate), OtherArgs(req.other), OutputArgs(outputName);
    assert |p| == 7 + Count(req.resolution.Some?, 2);
    assert VideoBitrateArgs(req.bitrate) == x by {
      assert CalculateBufsize(b) == Kilo(2 * b);
    }
    assert CommandFor(req, outputName) == p + x + (a + o + t) by {
      Assoc(p + x, a, o, t);
    }
    BlockAt(p, x, a + o + t);
  }

  /** A non-zero audio bitrate `a` emits `-c:a aac -b:a ak` right after the video bitrate tokens. */
  lemma AudioBlockAt(req: Request, outputName: string)
    requires IsNonZero(req.audioBitrate)
    ensures var cmd, a := CommandFor(req, outputName), req.audioBitrate.value;
      var i := 7 + Count(req.resolution.Some?, 2) + Count(IsNonZero(req.bitrate), 6);
      |cmd| >= i + 4 && cmd[i..i + 4] == ["-c:a", "aac", "-b:a", Kilo(a)]
  {
    var p := InputArgs(req.input) + ScaleArgs(req.resolution) + VideoBitrateArgs(req.bitrate);
    var x := ["-c:a", "aac", "-b:a", Kilo(req.audioBitrate.value)];
    var o, t := OtherArgs(req.other), OutputArgs(outputName);
    assert |p| == 7 + Count(req.resolution.Some?, 2) + Count(IsNonZero(req.bitrate), 6);
    assert CommandFor(req, outputName) == p + x + (o + t) by {
      Regroup(p + x, o, t);
    }
    BlockAt(p, x, o + t);
  }

  /** The `--other` tokens come unchanged and in order right before the closing block. */
  lemma OtherBlockAt(req: Request, outputName: string)
    ensures var cmd, o := CommandFor(req, outputName), OtherArgs(req.other);
      |cmd| >= |o| + 7 && cmd[|cmd| - 7 - |o|..|cmd| - 7] == o
  {
    var p := InputArgs(req.input) + ScaleArgs(req.resolution) + VideoBitrateArgs(req.bitrate) + AudioArgs(req.audioBitrate);
    var t := OutputArgs(outputName);
    assert |t| == 7;
    BlockAt(p, OtherArgs(req.other), t);
  }

  /** Setting a resolution inserts its two tokens and changes nothing else. */
  lemma ResolutionOnlyInserts(req: Request, outputName: string, r: Resolution)
    ensures var without := CommandFor(req.(resolution := None), outputName);
      |without| >= 7 &&
      CommandFor(req.(resolution := Some(r)), outputName) == without[..7] + ["-vf", ScaleFilter(r)] + without[7..]
  {
    var p, x := InputArgs(req.input), ["-vf", ScaleFilter(r)];
    var v, a := VideoBitrateArgs(req.bitrate), AudioArgs(req.audioBitrate);
    var o, t := OtherArgs(req.other), OutputArgs(outputName);
    var w := a + o + t;
    assert CommandFor(req.(resolution := Some(r)), outputName) == p + x + (v + w) by {
      Assoc(p + x + v, a, o, t);
      Regroup(p + x, v, w);
    }
    assert CommandFor(req.(resolution := None), outputName) == p + (v + w) by {
      assert p + [] == p;
      Assoc(p + v, a, o, t);
      Regroup(p, v, w);
    }
    InsertBlock(p, x, v + w);
  }

  /** Setting a non-zero bitrate inserts its six tokens and changes nothing else. */
  lemma VideoBitrateOnlyInserts(req: Request, outputName: string, b: int)
    requires b != 0
    ensures var without, i := CommandFor(req.(bitrate := None), outputName), 7 + Count(req.resolution.Some?, 2);
      |without| >= i &&
      CommandFor(req.(bitrate := Some(b)), outputName) == without[..i] + ["-b:v", Kilo(b), "-maxrate", Kilo(b), "-bufsize", Kilo(2 * b)] + without[i..]
  {
    var p := InputArgs(req.input) + ScaleArgs(req.resolution);
    var x := ["-b:v", Kilo(b), "-maxrate", Kilo(b), "-bufsize", Kilo(2 * b)];
    var a, o, t := AudioArgs(req.audioBitrate), OtherArgs(req.other), OutputArgs(outputName);
    assert |p| == 7 + Count(req.resolution.Some?, 2);
    assert VideoBitrateArgs(Some(b)) == x by {
      assert CalculateBufsize(b) == Kilo(2 * b);
    }
    assert CommandFor(req.(bitrate := Some(b)), outputName) == p + x + (a + o + t) by {
      Assoc(p + x, a, o, t);
    }
    assert CommandFor(req.(bitrate := None), outputName) == p + (a + o + t) by {
      assert p + [] == p;
      Assoc(p, a, o, t);
    }
    InsertBlock(p, x, a + o + t);
  }

  /** Setting a non-zero audio bitrate inserts its four tokens and changes nothing else. */
  lemma AudioOnlyInserts(req: Request, outputName: string, a: int)
    requires a != 0
    ensures var without := CommandFor(req.(audioBitrate := None), outputName);
      var i := 7 + Count(req.resolution.Some?, 2) + Count(IsNonZero(req.bitrate), 6);
      |without| >= i &&
      CommandFor(req.(audioBitrate := Some(a)), outputName) == without[..i] + ["-c:a", "aac", "-b:a", Kilo(a)] + without[i..]
  {
    var p := InputArgs(req.input) + ScaleArgs(req.resolution) + VideoBitrateArgs(req.bitrate);
    var x := ["-c:a", "aac", "-b:a", Kilo(a)];
    var o, t := OtherArgs(req.other), OutputArgs(outputName);
    assert |p| == 7 + Count(req.resolution.Some?, 2) + Count(IsNonZero(req.bitrate), 6);
    assert CommandFor(req.(audioBitrate := Some(a)), outputName) == p + x + (o + t) by {
      Regroup(p + x, o, t);
    }
    assert CommandFor(req.(audioBitrate := None), outputName) == p + (o + t) by {
      assert p + [] == p;
      Regroup(p, o, t);
    }
    InsertBlock(p, x, o + t);
  }

  /** `if args.bitrate:` and `if args.audio_bitrate:` -- a zero rate emits nothing, as an absent one. */
  lemma ZeroRatesAreAbsent(req: Request)
    ensures Command(req.(bitrate := Some(0))) == Command(req.(bitrate := None))
    ensures Command(req.(audioBitrate := Some(0))) == Command(req.(audioBitrate := None))
  {
  }

  /** `if not (args.other is None):` -- an empty `--other` list emits nothing, as an absent one. */
  lemma EmptyOtherIsAbsent(req: Request)
    ensures Command(req.(other := Some([]))) == Command(req.(other := None))
  {
  }

  /** `if output_filename:` -- an empty output name is replaced by the derived one, as an absent one. */
  lemma EmptyOutputIsAbsent(req: Request)
    ensures Command(req.(output := Some(""))) == Command(req.(output := None))
  {
  }

  // ---------------------------------------------------------------------------
  // Properties of the output name and the formatting

  /** Without an explicit name, `-out` goes before the extension, or at the end when there is none. */
  lemma DerivedOutputName(input: string)
    ensures !HasExtension(input) ==> GenerateOutputFilename(input, None) == input + "-out"
    ensures HasExtension(input) ==>
      var d := RFind(input, '.');
      0 <= d && GenerateOutputFilename(input, None) == input[..d] + "-out" + input[d..]
  {
    SplitextHasExtIff(input);
  }

  lemma OutputNameWithExtension()
    ensures GenerateOutputFilename("clip.mp4", None) == "clip-out.mp4"
  {
    SplitextAfterPlainChar("clip", ".mp4");
    assert "clip" + ".mp4" == "clip.mp4" && "clip" + "-out" + ".mp4" == "clip-out.mp4";
  }

  /** Only the last dot of the final component starts the extension. */
  lemma OutputNameDoubleExtension()
    ensures GenerateOutputFilename("archive.tar.gz", None) == "archive.tar-out.gz"
  {
    SplitextAfterPlainChar("archive.tar", ".gz");
    assert "archive.tar" + ".gz" == "archive.tar.gz" && "archive.tar" + "-out" + ".gz" == "archive.tar-out.gz";
  }

  /** A leading dot does not start an extension. */
  lemma OutputNameHiddenFile()
    ensures GenerateOutputFilename("dir/.bashrc", None) == "dir/.bashrc-out"
  {
    var p := "dir/.bashrc";
    assert !HasExtension(p) by {
      assert p[3] == '/' && p[4] == '.';
      assert forall m :: 5 <= m < |p| ==> p[m] != '.';
    }
    SplitextUnique(p, p, "");
    assert p + "-out" + "" == "dir/.bashrc-out";
  }

  /** A dot in a directory name does not start an extension. */
  lemma OutputNameDottedDirectory()
    ensures GenerateOutputFilename("a.d/file", None) == "a.d/file-out"
  {
    var p := "a.d/file";
    assert !HasExtension(p) by {
      assert p[3] == '/';
      assert forall m :: 4 <= m < |p| ==> p[m] != '.';
    }
    SplitextUnique(p, p, "");
    assert p + "-out" + "" == "a.d/file-out";
  }

  lemma ExplicitOutputName()
    ensures GenerateOutputFilename("a.mp4", Some("b.mp4")) == "b.mp4"
    ensures GenerateOutputFilename("a.mp4", Some("")) == "a-out.mp4"
  {
    SplitextAfterPlainChar("a", ".mp4");
    assert "a" + ".mp4" == "a.mp4" && "a" + "-out" + ".mp4" == "a-out.mp4";
  }

  lemma BufsizeExamples()
    ensures CalculateBufsize(2000) == "4000k"
    ensures CalculateBufsize(-5) == "-10k"
  {
    assert NatToString(40) == "40" && NatToString(400) == "400";
    assert NatToString(4000) == "4000";
    assert IntToString(-10) == "-" + NatToString(10) == "-10";
  }

  lemma ScaleFilterExamples()
    ensures ScaleFilter(R720p) == "scale=1280:720"
    ensures ScaleFilter(R4K) == "scale=3840:2160"
  {
  }

  // ---------------------------------------------------------------------------
  // Whole commands for sample requests

  /** Only an input: no scale or rate tokens, and the derived output name last. */
  lemma CommandInputOnly()
    ensures Command(Request("clip.mp4", None, None, None, None, None)) ==
      ["ffmpeg", "-hwaccel_device", "0", "-hwaccel", "cuda", "-i", "clip.mp4",
       "-c:v", "h264_nvenc", "-preset", "slow", "-c:a", "copy", "clip-out.mp4"]
  {
    OutputNameWithExtension();
  }

  lemma SampleScaleArgs()
    ensures ScaleArgs(Some(R720p)) == ["-vf", "scale=1280:720"]
  {
    ScaleFilterExamples();
  }

  lemma SampleVideoBitrateArgs()
    ensures VideoBitrateArgs(Some(2000)) == ["-b:v", "2000k", "-maxrate", "2000k", "-bufsize", "4000k"]
  {
    BufsizeExamples();
    assert Kilo(2000) == "2000k";
  }

  lemma SampleOutputName()
    ensures GenerateOutputFilename("a.mov", None) == "a-out.mov"
  {
    SplitextAfterPlainChar("a", ".mov");
    assert "a" + ".mov" == "a.mov" && "a" + "-out" + ".mov" == "a-out.mov";
  }

  lemma SampleCommandFor()
    ensures CommandFor(Request("a.mov", None, Some(R720p), Some(2000), None, Some(["-an", "-y"])), "a-out.mov") ==
      ["ffmpeg", "-hwaccel_device", "0", "-hwaccel", "cuda", "-i", "a.mov",
       "-vf", "scale=1280:720", "-b:v", "2000k", "-maxrate", "2000k", "-bufsize", "4000k",
       "-an", "-y",
       "-c:v", "h264_nvenc", "-preset", "slow", "-c:a", "copy", "a-out.mov"]
  {
    SampleScaleArgs();
    SampleVideoBitrateArgs();
  }

  /** Resolution and video bitrate, with `--other` tokens passed through before the closing block. */
  lemma CommandScaleAndBitrate()
    ensures Command(Request("a.mov", None, Some(R720p), Some(2000), None, Some(["-an", "-y"]))) ==
      ["ffmpeg", "-hwaccel_device", "0", "-hwaccel", "cuda", "-i", "a.mov",
       "-vf", "scale=1280:720", "-b:v", "2000k", "-maxrate", "2000k", "-bufsize", "4000k",
       "-an", "-y",
       "-c:v", "h264_nvenc", "-preset", "slow", "-c:a", "copy", "a-out.mov"]
  {
    SampleOutputName();
    SampleCommandFor();
  }

  /**
   * Explicit output and audio bitrate: the AAC tokens come before the fixed
   * `-c:a copy` of the closing block, in that order.
   */
  lemma CommandAudioThenCopy()
    ensures Command(Request("a.mp4", Some("b.mp4"), None, None, Some(128), None)) ==
      ["ffmpeg", "-hwaccel_device", "0", "-hwaccel", "cuda", "-i", "a.mp4",
       "-c:a", "aac", "-b:a", "128k",
       "-c:v", "h264_nvenc", "-preset", "slow", "-c:a", "copy", "b.mp4"]
  {
    assert Kilo(128) == "128k";
  }
}
