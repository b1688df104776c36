# QMusic helpers in Dafny

A model of the helper library `src/lib.py` of the QMusic desktop music player:

- **Clock** (`to_hhmmss`): a track position in milliseconds shown as `m:ss`, or as `h:mm:ss` once it
  reaches an hour. Rounding is half-to-even, as Python 3's `round` does. Hours, minutes and seconds come
  from two floor `divmod`s by 60. The model proves the arithmetic decomposition, the field layout and
  padding, and that the string reads back as the rounded number of seconds.
- **FileUrl** (`urlStringToPath`): a `file://` URL becomes a local path. The model covers the
  drive-letter case (`file:///C:/...`) and the `IndexError` raised on `file://` URLs shorter than ten characters.
- **CoverArt** (`get_coverart`): finds the cover image of an album directory. The directory listing is a
  parameter. `GetCoverArt` keeps the source's two loops: the image filter, then the keyword search with
  its early return. It is proved against a function that names the result: the first entry in listing order
  whose lower-cased name contains `cover`, `front` or `folder`.
- **Tags**: covers two parts of the tag code.
  - The picture choice in `get_coverart_pixmap_from_metadata`: the last key starting with `APIC` wins.
    The model returns the bytes that would be decoded.
  - Class `Metadata`: `title` and `album` come from the first text of the `TIT2` and `TALB` frames.
- **Text** and **Wrappers**: the Python string operations the helpers use (`lower`, `startswith`, `in`,
  `split`, `%d`, `%02d`), plus `None`/value and result/exception wrappers.

Two behaviours of the code worth knowing. The model follows the code:

- Line 65 of src/lib.py tests only index 9 for the drive-letter colon, so `file:///a:b` also loses its
  leading slash and gives `a:b` (`FileUrl.ColonAtIndexNineDropsSlash`).
- The filter at line 50 keeps every entry, whatever the comment at line 42 says. So a non-image entry
  whose name holds a keyword is returned (see Findings).

## Model

| member | source | states |
|---|---|---|
| `Clock.RoundedSeconds` | src/lib.py:35 | the result is within half a second (500 ms) of `ms`; at exactly half a second it is even (round half to even) |
| `Clock.RoundedSecondsUnique` | src/lib.py:35 | those two properties determine the rounded value uniquely |
| `Clock.ClockParts` | src/lib.py:36-37 | `h*3600 + m*60 + s == total` with `0 <= m < 60` and `0 <= s < 60`; `h >= 0` for a non-negative total |
| `Clock.ClockPartsUnique` | src/lib.py:36-37 | any hours, minutes and seconds with those bounds that sum to `total` are the ones `divmod` gives |
| `Clock.ToHhmmss` | src/lib.py:29-39 | no contract of its own: `Clock.ToHhmmssFields` fixes its fields and `Clock.ToHhmmssRoundTrip` reads it back as the rounded seconds |
| `Clock.ToHhmmssFields` | src/lib.py:39 | the output splits at `:` into `m`, `ss` when `h == 0`, else `h`, `mm`, `ss`; the first field is an unpadded `%d` numeral, the others exactly two digits, each reading back as its part |
| `Clock.ToHhmmssRoundTrip` | src/lib.py:29-39 | parsing the output back gives the rounded number of seconds |
| `Clock.ToHhmmssZero` | src/lib.py:29-39 | `to_hhmmss(0) == "0:00"` |
| `Clock.ToHhmmssMinute` | src/lib.py:29-39 | `to_hhmmss(61000) == "1:01"` |
| `Clock.ToHhmmssHour` | src/lib.py:29-39 | `to_hhmmss(3661000) == "1:01:01"` |
| `Clock.ToHhmmssTiesToEven` | src/lib.py:35 | 1500 ms and 2500 ms both show as `0:02` |
| `Clock.ToHhmmssNegative` | src/lib.py:35-39 | -1000 ms shows as `-1:59:59`, because floor `divmod` puts the sign on the hours |
| `Text.LowerForgetsCase` | src/lib.py:54 | lower-casing is idempotent and erases upper-casing |
| `Text.ContainsIff` | src/lib.py:55 | `t in s` holds exactly when `t` occurs at some index of `s` |
| `Text.Split` | src/lib.py:49-50 | `split` never returns an empty list, so `split[len(split)-1]` is always defined |
| `Text.SplitJoin` | src/lib.py:49 | joining the pieces with the separator gives the name back, and no piece contains the separator |
| `Text.DecimalRoundTrip` | src/lib.py:39 | `%d` of a natural number is a numeral without leading zeros that reads back as the number |
| `Text.Pad2TwoDigits` | src/lib.py:39 | `%02d` of a value below 100 is exactly two digits that read back as the value |
| `Text.FormatIntRoundTrip` | src/lib.py:39 | `%d` of any integer (sign included) reads back as the integer |
| `FileUrl.UrlStringToPath` | src/lib.py:60-70 | input without `file://` comes back unchanged; the only failure is `IndexError`, raised exactly when the prefix is present and the string is shorter than 10 characters; a returned path is always a suffix of the input |
| `FileUrl.UnixPathRoundTrip` | src/lib.py:64-66 | `file://` + a path whose third character is not `:` gives the path back (7 characters dropped) |
| `FileUrl.DrivePathRoundTrip` | src/lib.py:65-66 | `file:///` + a drive path `C:...` gives the drive path back (8 characters dropped) |
| `FileUrl.ColonAtIndexNineDropsSlash` | src/lib.py:65 | a POSIX path whose third character is `:` is taken for a drive path and loses its leading slash |
| `FileUrl.ShortFileUrlRaises` | src/lib.py:65 | `file:///a` raises `IndexError`; the guarded version returns `/a` |
| `FileUrl.UrlStringToPathGuarded` | src/lib.py:65 | with the index read guarded, the result is always a suffix of the input and never an error |
| `FileUrl.GuardedUnixPathRoundTrip` | src/lib.py:63-70 | the guarded version gives back every path put behind `file://`, short ones included, unless its third character is `:` |
| `FileUrl.GuardedAgrees` | src/lib.py:63-70 | wherever the original returns a path, the guarded version returns the same one |
| `CoverArt.Join` | src/lib.py:56 | `os.path.join`: the entry name is a suffix of the result; an absolute name is returned as is, otherwise the result starts with the directory |
| `CoverArt.PassesImageTest` | src/lib.py:49-50 | no contract of its own: `CoverArt.ImageTestAlwaysPasses` shows it holds for every name |
| `CoverArt.ImageEntries` | src/lib.py:46-51 | no contract of its own: `CoverArt.ImageEntriesKeepsAll` shows it returns the whole listing |
| `CoverArt.IsCoverName` | src/lib.py:54-55 | no contract of its own: `CoverArt.IsCoverNameIff` and `CoverArt.IsCoverNameIgnoresCase` state what it accepts |
| `CoverArt.ImageTestAlwaysPasses` | src/lib.py:50 | `ext == "jpg" or "jpeg" or "png"` is true for every entry name |
| `CoverArt.ImageEntriesKeepsAll` | src/lib.py:46-51 | the `images` list equals the whole directory listing, in listing order |
| `CoverArt.IsCoverNameIff` | src/lib.py:54-55 | an entry matches exactly when `cover`, `front` or `folder` occurs at some index of its lower-cased name |
| `CoverArt.IsCoverNameIgnoresCase` | src/lib.py:54-55 | the match does not depend on case: an upper-cased name matches exactly when the name does |
| `CoverArt.FirstCoverIndex` | src/lib.py:53-58 | `None` exactly when no entry matches; otherwise a matching index with no match before it |
| `CoverArt.FirstCoverIndexIs` | src/lib.py:53-56 | a cover name with no cover name before it is the index the search stops at |
| `CoverArt.CoverPath` | src/lib.py:53-58 | `None` exactly when no entry matches; otherwise the join of a matching entry with no match before it |
| `CoverArt.GetCoverArt` | src/lib.py:41-58 | returns `join(dir, e)` for the first matching entry `e` of the listing, and `None` exactly when no entry matches |
| `CoverArt.FolderImageFound` | src/lib.py:41-58 | the listing `folder.jpg`, `track.mp3` in `album` gives `album/folder.jpg` |
| `CoverArt.NonImageCoverReturned` | src/lib.py:50 | as written, the listing `cover.txt` gives `album/cover.txt` |
| `CoverArt.IntendedImageEntries` | src/lib.py:48-51 | with the intended filter, an entry is kept exactly when it is in the listing and has a `jpg`, `jpeg` or `png` extension in any case |
| `CoverArt.IntendedImageEntriesAppend` | src/lib.py:48-51 | the intended filter keeps listing order: filtering a concatenation concatenates the filtered parts |
| `CoverArt.IntendedFirstCover` | src/lib.py:48-58 | the first cover name among the intended image entries is the first listing entry that is both an image and a cover name |
| `CoverArt.IntendedCoverArt` | src/lib.py:41-58 | with the intended filter, the result joins the first listing entry that has both an image extension and a keyword; `None` exactly when no entry has both |
| `CoverArt.NonImageCoverSkipped` | src/lib.py:50 | with the intended filter, the listing `cover.txt` gives `None` |
| `Tags.LastApicIndex` | src/lib.py:95-98 | `None` exactly when no key starts with `APIC`; otherwise an `APIC` key with no `APIC` key after it |
| `Tags.LastApicKey` | src/lib.py:95-98 | `None` exactly when no key starts with `APIC`; otherwise a key starting with `APIC` with no such key after it |
| `Tags.SelectApicKey` | src/lib.py:95-98 | the loop leaves `apic` at the last key, in iteration order, that starts with `APIC` |
| `Tags.LastPictureWins` | src/lib.py:95-98 | of two `APIC` keys, the one iterated later is chosen |
| `Tags.CoverArtPictureData` | src/lib.py:94-106 | `None` exactly when no key starts with `APIC`; otherwise the `.data` of the last `APIC` frame; `AttributeError`, the only failure, exactly when that frame is a text frame |
| `Tags.TextValue` | src/lib.py:137-140 | `None` exactly when the frame is absent; otherwise its first text; `IndexError` exactly when it is a text frame with an empty list, `AttributeError` exactly when it is a picture frame |
| `Tags.TextValueLocal` | src/lib.py:137-140 | a frame's value does not depend on any other entry of the dictionary, so title and album are independent |
| `Tags.ReadableIff` | src/lib.py:137-140 | the constructor returns exactly when each present `TIT2` or `TALB` frame is a text frame with non-empty text |
| `Tags.Metadata.constructor` | src/lib.py:132-140 | `title` is the first text of `TIT2` or `None` if absent; `album` likewise with `TALB` |
| `Tags.MetadataOfTitleOnly` | src/lib.py:132-140 | a dictionary with `TIT2` `["Song"]` and no `TALB` gives title `Song` and no album |

## Left out

- `os.listdir`: the directory listing is the `directory` parameter of `CoverArt.GetCoverArt`. A missing directory, which raises in the source, is not modelled.
- `os.path.join` is modelled by its POSIX definition for two components. The Windows variant is not modelled.
- `get_execdir`, `get_resourcepath`, `get_configDir`: host path queries (`realpath`, `expanduser`) with no logic of their own.
- `create_configDir`, `writeToConfig`, `clearConfigFile`: file creation and writing.
- `get_admin_status`: platform calls (`os.getuid`, `ctypes.windll`) with exception-driven branching.
- `Tags.CoverArtPictureData`: returns the picture bytes. Decoding them into a `QPixmap` is a call into the Qt library and is not modelled.
- The mutagen tagging library that produces the tag dictionary is not part of this model. Its iteration order is the `keys` field of `TagDict`.
- `Clock.RoundedSeconds`: `ms / 1000` is a float division in the source. The model uses the exact quotient, which agrees whenever `ms` is within the range where floats represent integers exactly.
- `Text.Lower` folds ASCII letters only. Python's `str.lower` also folds other Unicode letters.
- `Tags.Metadata.constructor`: requires `Readable`, because a Dafny constructor cannot raise. The `IndexError` and `AttributeError` the source raises there are stated by `Tags.TextValue` and `Tags.ReadableIff`.
- Module globals (`progName`, `textColour`, `configDir`, `mediaFileName`, `supportedFormats`): constants and unused state.

## Findings

| source | as written | input that shows it | evidently intended | confidence | as-written member | corrected member |
|---|---|---|---|---|---|---|
| src/lib.py:50 | `split[...].lower() == "jpg" or "jpeg" or "png"` parses as `(... == "jpg") or "jpeg" or "png"`, which is always true, so every entry counts as an image | listing `["cover.txt"]` gives `album/cover.txt` | keep only entries with a `jpg`, `jpeg` or `png` extension | high; not executed | `CoverArt.NonImageCoverReturned` | `CoverArt.IntendedCoverArt` |
| src/lib.py:65 | `urlString[9]` is read whenever the `file://` prefix matches, with no length check | `file:///a` raises `IndexError` | return `/a`, reading index 9 only when it exists | medium; not executed | `FileUrl.ShortFileUrlRaises` | `FileUrl.UrlStringToPathGuarded` |
