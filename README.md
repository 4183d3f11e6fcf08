# easy-ffmpeg argument translation, in Dafny

`ffmpeg-hirusha.py` is a command-line front end for NVIDIA-accelerated
transcoding with ffmpeg. Once its option parser has produced the options, it
does three things, and this project models all three:

- **Output name** (`generate_output_filename`). A non-empty `--output` is used
  as it is. Otherwise the name comes from the input: it is split the way POSIX
  `os.path.splitext` splits it, and `-out` goes between the root and the
  extension. `PosixPath.Splitext` models `os.path.splitext`. It splits at the
  last `.` of the final `/` component. A dot with only dots before it in that
  component (as in `.bashrc`) does not start an extension.
  `PosixPath.HasExtension` states the same rule without `rfind` positions.
  `SplitextUnique` proves that the two agree.
- **Rate formatting** (`calculate_bufsize` and the `f"{n}k"` tokens).
  `Decimal.IntToString` models Python's `str(int)`, with a `-` for negatives,
  because the `int` option type accepts them. `Decimal.ParseInt` reads every
  rendering back (a left inverse).
  The round-trip lemmas say what a rate token means.
- **Command assembly** (lines 41-66 of `main`). The parsed options are a
  `Request` record. `CommandFor` lays out the blocks for a given output name:
  the fixed input block, the optional scale, video-bitrate and audio blocks,
  the `--other` tokens, and the fixed encoder/output block. `Command` is the
  specification: `CommandFor` with the name `generate_output_filename` yields.
  The layout lemmas are stated over `CommandFor`, so they hold whatever the
  output name is. `BuildCommand` is a method. Like the source, it
  grows one list step by step, and it is proved equal to `Command`. Lemmas about
  `Command` give the position and count of every block. They also show that
  adding an option inserts exactly its own tokens and changes nothing else, and
  that Python's truthiness makes `0` and `""` act like an absent option, while
  an empty `--other` list adds no tokens.

Files: `wrappers.dfy` (Option), `decimal.dfy` (module `Decimal`),
`posix_path.dfy` (module `PosixPath`), `easy_ffmpeg.dfy` (module `EasyFfmpeg`).
The constants `EasyFfmpeg.Choices` and `EasyFfmpeg.Resolutions` copy the
`--resolution` choices (line 25) and the scale table (lines 44-53). The rows for
`ScaleFilter`, `ScaleFilterIsSize`, `LabelsAreChoices` and `ScaleFilterInjective`
state what is proved about them.

On these edge cases the model follows `ffmpeg-hirusha.py` as written:

- `generate_output_filename` uses an explicit output name only when it is
  truthy (line 9). An empty string gets the derived name, not an empty output
  path.
- A bitrate or audio bitrate of `0` emits no tokens (lines 56 and 59). A
  negative one is truthy and is emitted as `-5k`, with a buffer size of `-10k`.
- `--other` is tested with `is None` (line 62). An empty list is extended
  into the command as nothing, so `Some([])` and `None` give the same command.
- The exit status of ffmpeg is discarded: `subprocess.run(cmd)` (line 68)
  returns it and nothing uses it. No exit-status rule is modelled (see below).

## Model

| member | source | states |
|---|---|---|
| `Decimal.IntToString` | ffmpeg-hirusha.py:18 | a decimal rendering is non-empty, begins with `-` exactly for negative values, is otherwise all digits, and has no leading zero: a rendering that starts with `0` is exactly `0`, the rendering of zero |
| `Decimal.ParseNatToString` | ffmpeg-hirusha.py:18 | reading back the digits of a natural number gives that number |
| `Decimal.IntToStringRoundTrip` | ffmpeg-hirusha.py:57 | reading back the rendering of any integer, negative included, gives that integer |
| `Decimal.IntToStringInjective` | ffmpeg-hirusha.py:57 | distinct integers render differently |
| `PosixPath.RFind` | ffmpeg-hirusha.py:12 | the result is -1 or an index holding the character, and no later index holds it |
| `PosixPath.Splitext` | ffmpeg-hirusha.py:12 | root followed by extension is the path; the extension is empty or one leading `.` with no other `.` and no `/` |
| `PosixPath.SplitextHasExtIff` | ffmpeg-hirusha.py:12 | the extension is non-empty exactly when the final component has a character other than `.` followed later by a `.` |
| `PosixPath.SplitextUnique` | ffmpeg-hirusha.py:12 | any root/extension split with a well-formed extension that is present exactly when the final component has one is the split `splitext` returns |
| `PosixPath.SplitextAfterPlainChar` | ffmpeg-hirusha.py:12 | a well-formed extension after a character other than `.` and `/` is split off exactly |
| `PosixPath.SplitextInsertOut` | ffmpeg-hirusha.py:12-13 | `root + "-out" + ext` splits again into `root + "-out"` and the same extension |
| `EasyFfmpeg.IsGivenName` | ffmpeg-hirusha.py:9 | the truth test of `output_filename` is false exactly for `None` and the empty string |
| `EasyFfmpeg.IsNonZero` | ffmpeg-hirusha.py:56-59 | the truth test of a rate is false exactly for `None` and `0`; negative rates are true |
| `EasyFfmpeg.GenerateOutputFilename` | ffmpeg-hirusha.py:8-13 | a truthy output name is the result; otherwise the result is four characters (`-out`) longer than the input |
| `EasyFfmpeg.ExplicitOutputUnchanged` | ffmpeg-hirusha.py:9-10 | a non-empty explicit output name is returned unchanged, whatever its shape |
| `EasyFfmpeg.DerivedOutputKeepsExtension` | ffmpeg-hirusha.py:11-13 | with no name or an empty one, the input is root plus extension, and the result splits into that root with `-out` and the same extension |
| `EasyFfmpeg.DerivedOutputName` | ffmpeg-hirusha.py:12-13 | `-out` is appended at the end when the final component has no extension, and otherwise inserted just before the last `.` |
| `EasyFfmpeg.OutputNameWithExtension` | ffmpeg-hirusha.py:12-13 | `clip.mp4` gives `clip-out.mp4` |
| `EasyFfmpeg.OutputNameDoubleExtension` | ffmpeg-hirusha.py:12-13 | `archive.tar.gz` gives `archive.tar-out.gz`: only the last extension is split off |
| `EasyFfmpeg.OutputNameHiddenFile` | ffmpeg-hirusha.py:12-13 | `dir/.bashrc` gives `dir/.bashrc-out`, because a leading dot does not start an extension |
| `EasyFfmpeg.OutputNameDottedDirectory` | ffmpeg-hirusha.py:12-13 | `a.d/file` gives `a.d/file-out`, because a dot in a directory name is not an extension |
| `EasyFfmpeg.ExplicitOutputName` | ffmpeg-hirusha.py:9-13 | `b.mp4` is used as it is; an empty name for `a.mp4` gives `a-out.mp4` |
| `EasyFfmpeg.Kilo` | ffmpeg-hirusha.py:57-60 | an `f"{n}k"` rate token ends in `k` and reads back as `n`, for every integer |
| `EasyFfmpeg.CalculateBufsize` | ffmpeg-hirusha.py:16-18 | the buffer-size token ends in `k` and reads back as twice the bitrate |
| `EasyFfmpeg.BufsizeExamples` | ffmpeg-hirusha.py:16-18 | 2000 gives `4000k`; -5 gives `-10k` |
| `EasyFfmpeg.ScaleFilter` | ffmpeg-hirusha.py:43-54 | the argument starts with `scale=`; the resolution's label is one of the parser choices of line 25 and a key of the table, so the lookup on line 54 cannot miss |
| `EasyFfmpeg.ScaleFilterIsSize` | ffmpeg-hirusha.py:44-54 | every scale argument is `scale=W:H` with decimal width and height |
| `EasyFfmpeg.LabelsAreChoices` | ffmpeg-hirusha.py:44-53 | each resolution's label is one of the eight parser choices (line 25) and has a table entry; every choice is some resolution's label; the table's keys are exactly the choices |
| `EasyFfmpeg.ScaleFilterInjective` | ffmpeg-hirusha.py:44-54 | distinct resolutions give distinct `scale=W:H` arguments |
| `EasyFfmpeg.ScaleFilterExamples` | ffmpeg-hirusha.py:44-54 | `720p` scales to `1280:720` and `4K` to `3840:2160` |
| `EasyFfmpeg.BuildCommand` | ffmpeg-hirusha.py:41-66 | growing the list block by block yields exactly the specified command |
| `EasyFfmpeg.CommandFor` | ffmpeg-hirusha.py:41-66 | for any output name, the command has 14 tokens, plus 2 with a resolution, 6 with a non-zero bitrate, 4 with a non-zero audio bitrate, plus the `--other` tokens |
| `EasyFfmpeg.Command` | ffmpeg-hirusha.py:41-66 | the command `main` builds has `-i` and the input as tokens 5 and 6, and ends with the name `generate_output_filename` returns |
| `EasyFfmpeg.CommandFrame` | ffmpeg-hirusha.py:41-66 | the command starts with `ffmpeg -hwaccel_device 0 -hwaccel cuda -i <input>` and ends with `-c:v h264_nvenc -preset slow -c:a copy <output name>` |
| `EasyFfmpeg.ScaleBlockAt` | ffmpeg-hirusha.py:43-54 | with a resolution, tokens 7 and 8 are `-vf` and `scale=` followed by that resolution's table entry |
| `EasyFfmpeg.VideoBitrateBlockAt` | ffmpeg-hirusha.py:56-57 | with a non-zero bitrate `b`, the six tokens after the scale block are `-b:v bk -maxrate bk -bufsize (2b)k` |
| `EasyFfmpeg.AudioBlockAt` | ffmpeg-hirusha.py:59-60 | with a non-zero audio bitrate `a`, the four tokens after the video-bitrate block are `-c:a aac -b:a ak` |
| `EasyFfmpeg.OtherBlockAt` | ffmpeg-hirusha.py:62-63 | the `--other` tokens sit unchanged and in order just before the seven closing tokens |
| `EasyFfmpeg.ResolutionOnlyInserts` | ffmpeg-hirusha.py:43-54 | adding a resolution inserts `-vf scale=W:H` after the input block and changes nothing else |
| `EasyFfmpeg.VideoBitrateOnlyInserts` | ffmpeg-hirusha.py:56-57 | adding a non-zero bitrate inserts its six tokens after the scale block and changes nothing else |
| `EasyFfmpeg.AudioOnlyInserts` | ffmpeg-hirusha.py:59-60 | adding a non-zero audio bitrate inserts `-c:a aac -b:a <a>k` after the video-bitrate block and changes nothing else |
| `EasyFfmpeg.ZeroRatesAreAbsent` | ffmpeg-hirusha.py:56-60 | a bitrate or audio bitrate of 0 gives the same command as none |
| `EasyFfmpeg.EmptyOtherIsAbsent` | ffmpeg-hirusha.py:62-63 | an empty `--other` list gives the same command as none |
| `EasyFfmpeg.EmptyOutputIsAbsent` | ffmpeg-hirusha.py:9-13 | an empty output name gives the same command as none |
| `EasyFfmpeg.CommandInputOnly` | ffmpeg-hirusha.py:41-66 | input `clip.mp4` alone gives the 14-token command ending in `clip-out.mp4`, with no scale or rate tokens |
| `EasyFfmpeg.CommandScaleAndBitrate` | ffmpeg-hirusha.py:41-66 | the request with input `a.mov`, resolution `720p`, bitrate 2000 and `other = ["-an", "-y"]` gives the full expected token list, with `-bufsize 4000k` |
| `EasyFfmpeg.CommandAudioThenCopy` | ffmpeg-hirusha.py:41-66 | an explicit output with audio bitrate 128 gives `-c:a aac -b:a 128k` before the closing `-c:a copy b.mp4` |

## Left out

- Option parsing (`argparse`, lines 22-28 and 39): the `choices` check, `required=True` and the `int` conversion are library behaviour. Their results are the `Request` record and the closed `Resolution` type.
- The `other` field of `Request` accepts any list of tokens. The option parser does not let `--other` take tokens it reads as options, such as `-an` or `-y`; it rejects them as unrecognized arguments. The model therefore admits more lists than the command line can produce (`CommandScaleAndBitrate` uses one such list).
- The zero-argument help path (lines 30-37): printing the help text and the two bitrate hint lines, then `sys.exit(1)`. This is console I/O and process exit.
- `subprocess.run(cmd)` (line 68) is a call into an external process. The model stops at the token list. The script ignores the process's return status, so no exit-status rule is modelled.
- What ffmpeg does with the tokens is not modelled. For example, the closing `-c:a copy` may override an earlier `-c:a aac`. Only the token order is proved (`CommandAudioThenCopy`, `AudioBlockAt`).
- Windows `os.path.splitext` (drive letters, `\` as a separator) and `bytes` paths are not modelled. Only the POSIX variant on text paths is modelled.
- Python strings are modelled as sequences of characters, without encoding.
- `Decimal.IntToString` renders integers of any size. Python 3.11 and later refuses by default to convert an integer of more than 4300 digits to decimal, and raises `ValueError`. For a bitrate whose doubled value has more than 4300 digits, `calculate_bufsize` (line 18) would raise and the script would stop before ffmpeg starts. The model does not have that error path.
