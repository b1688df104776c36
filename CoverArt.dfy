/**
 * `get_coverart` of lib.py: find a cover image in an album directory. The
 * directory listing (`os.listdir`) is a parameter, in listing order.
 */
module CoverArt {
  import opened Wrappers
  import opened Text

  /** `os.path.extsep` */
  const ExtSep: char := '.'

  /** `os.path.join(directoryPath, name)` as POSIX defines it for two components. */
  function Join(directoryPath: string, name: string): (path: string)
    ensures |name| <= |path| && path[|path| - |name|..] == name
    ensures StartsWith(name, "/") ==> path == name
    ensures !StartsWith(name, "/") ==> StartsWith(path, directoryPath)
  {
    if StartsWith(name, "/") then name
    else if directoryPath == [] || directoryPath[|directoryPath| - 1] == '/' then directoryPath + name
    else directoryPath + "/" + name
  }

  /** The last piece of `name.split(os.path.extsep)`: the extension, or the whole name. */
  function Extension(name: string): string {
    var split := Split(name, ExtSep);
    split[|split| - 1]
  }

  /** Truth value of a `str` in a Python condition: it is true when non-empty. */
  predicate Truthy(s: string) {
    |s| > 0
  }

  // ---------------------------------------------------------------- the image filter as written

  /**
   * The test at lib.py line 50 as Python groups it:
   * `(ext.lower() == "jpg") or "jpeg" or "png"`.
   */
  predicate PassesImageTest(name: string) {
    Lower(Extension(name)) == "jpg" || Truthy("jpeg") || Truthy("png")
  }

  /** Whatever the extension, the test passes: the string literals are true. */
  lemma ImageTestAlwaysPasses(name: string)
    ensures PassesImageTest(name)
  {
  }

  /** The `images` list built by the first loop: the entries that pass the test, in listing order. */
  function ImageEntries(directory: seq<string>): seq<string>
    decreases |directory|
  {
    if directory == [] then []
    else
      var last := directory[|directory| - 1];
      ImageEntries(directory[..|directory| - 1]) + (if PassesImageTest(last) then [last] else [])
  }

  /** The test is always true, so `images` is the whole listing in its own order. */
  lemma {:induction false} ImageEntriesKeepsAll(directory: seq<string>)
    ensures ImageEntries(directory) == directory
    decreases |directory|
  {
    if directory != [] {
      ImageEntriesKeepsAll(directory[..|directory| - 1]);
      ImageTestAlwaysPasses(directory[|directory| - 1]);
      assert directory[..|directory| - 1] + [directory[|directory| - 1]] == directory;
    }
  }

  // ---------------------------------------------------------------- the keyword search

  const Keywords: seq<string> := ["cover", "front", "folder"]

  /** The lower-cased entry name contains `cover`, `front` or `folder`. */
  predicate IsCoverName(name: string) {
    var lower := Lower(name);
    Contains(lower, "cover") || Contains(lower, "front") || Contains(lower, "folder")
  }

  /** A cover name is one where some keyword occurs at some index of the lower-cased name. */
  lemma IsCoverNameIff(name: string)
    ensures IsCoverName(name) <==> exists kw, i :: kw in Keywords && OccursAt(Lower(name), kw, i)
  {
    var lower := Lower(name);
    ContainsIff(lower, "cover");
    ContainsIff(lower, "front");
    ContainsIff(lower, "folder");
    if exists kw, i :: kw in Keywords && OccursAt(lower, kw, i) {
      var kw, i :| kw in Keywords && OccursAt(lower, kw, i);
      assert kw == "cover" || kw == "front" || kw == "folder";
    }
  }

  /** The keyword match ignores case: `COVER.JPG` and `cover.jpg` are alike. */
  lemma IsCoverNameIgnoresCase(name: string)
    ensures IsCoverName(Upper(name)) == IsCoverName(name)
  {
    LowerForgetsCase(name);
  }

  /** Index of the first cover name in `entries`, if there is one. */
  function FirstCoverIndex(entries: seq<string>): (k: Option<nat>)
    ensures k.None? <==> forall j :: 0 <= j < |entries| ==> !IsCoverName(entries[j])
    ensures k.Some? ==> k.value < |entries| && IsCoverName(entries[k.value])
                        && forall j :: 0 <= j < k.value ==> !IsCoverName(entries[j])
    decreases |entries|
  {
    if entries == [] then None
    else if IsCoverName(entries[0]) then Some(0)
    else
      match FirstCoverIndex(entries[1..])
      case None => None
      case Some(k) => Some(k + 1)
  }

  /** The path of the first cover name among `entries`, joined to the directory. */
  function CoverPath(directoryPath: string, entries: seq<string>): (r: Option<string>)
    ensures r.None? <==> forall e :: e in entries ==> !IsCoverName(e)
    ensures r.Some? ==> exists k :: 0 <= k < |entries| && IsCoverName(entries[k])
                                    && r.value == Join(directoryPath, entries[k])
                                    && forall j :: 0 <= j < k ==> !IsCoverName(entries[j])
  {
    match FirstCoverIndex(entries)
    case None => None
    case Some(k) => Some(Join(directoryPath, entries[k]))
  }

  /**
   * `get_coverart(directoryPath)` with `directory` the listing. Since the
   * filter keeps every entry, the result is the first entry of the listing
   * (whatever its extension) whose name contains a keyword in any case, or
   * `None` exactly when no entry does.
   */
  method GetCoverArt(directoryPath: string, directory: seq<string>) returns (r: Option<string>)
    ensures r == CoverPath(directoryPath, directory)
    ensures r.None? <==> forall e :: e in directory ==> !IsCoverName(e)
  {
    var images: seq<string> := [];
    for i := 0 to |directory|
      invariant images == ImageEntries(directory[..i])
    {
      var relativeEntryName := directory[i];
      var split := Split(relativeEntryName, ExtSep);
      if Lower(split[|split| - 1]) == "jpg" || Truthy("jpeg") || Truthy("png") {
        images := images + [relativeEntryName];
      }
      assert directory[..i + 1][..i] == directory[..i];
    }
    assert directory[..|directory|] == directory;
    ImageEntriesKeepsAll(directory);

    for i := 0 to |images|
      invariant forall j :: 0 <= j < i ==> !IsCoverName(images[j])
    {
      var lower := Lower(images[i]);
      if Contains(lower, "cover") || Contains(lower, "front") || Contains(lower, "folder") {
        FirstCoverIndexIs(images, i);
        return Some(Join(directoryPath, images[i]));
      }
    }
    return None;
  }

  /** A listing holding `folder.jpg` and `track.mp3` resolves to `folder.jpg`. */
  lemma FolderImageFound()
    ensures CoverPath("album", ["folder.jpg", "track.mp3"]) == Some("album/folder.jpg")
  {
    assert Lower("folder.jpg") == "folder.jpg";
    assert "folder.jpg"[..6] == "folder";
    assert IsCoverName("folder.jpg");
    assert !StartsWith("folder.jpg", "/") by { assert "folder.jpg"[..1][0] != '/'; }
    var entries := ["folder.jpg", "track.mp3"];
    assert entries[0] == "folder.jpg";
    assert FirstCoverIndex(entries) == Some(0);
    assert Join("album", "folder.jpg") == "album/folder.jpg";
  }

  // ---------------------------------------------------------------- the filter as intended

  /** The extension test the comment at lib.py line 42 describes: `jpg`, `jpeg` or `png`, in any case. */
  predicate HasImageExtension(name: string) {
    var ext := Lower(Extension(name));
    ext == "jpg" || ext == "jpeg" || ext == "png"
  }

  /** The entries with an image extension, in listing order. */
  function IntendedImageEntries(directory: seq<string>): (images: seq<string>)
    ensures forall e :: e in images <==> e in directory && HasImageExtension(e)
    decreases |directory|
  {
    if directory == [] then []
    else
      var last := directory[|directory| - 1];
      IntendedImageEntries(directory[..|directory| - 1]) + (if HasImageExtension(last) then [last] else [])
  }

  /** The filter keeps listing order: filtering a concatenation concatenates the filtered parts. */
  lemma {:induction false} IntendedImageEntriesAppend(a: seq<string>, b: seq<string>)
    ensures IntendedImageEntries(a + b) == IntendedImageEntries(a) + IntendedImageEntries(b)
    decreases |b|
  {
    if b == [] {
      assert a + b == a;
    } else {
      var b' := b[..|b| - 1];
      IntendedImageEntriesAppend(a, b');
      assert (a + b)[..|a + b| - 1] == a + b';
      assert (a + b)[|a + b| - 1] == b[|b| - 1];
    }
  }

  /** An entry the corrected search accepts: an image whose name holds a keyword. */
  predicate IsImageCover(name: string) {
    HasImageExtension(name) && IsCoverName(name)
  }

  /** A cover name with none before it is the one `FirstCoverIndex` finds. */
  lemma FirstCoverIndexIs(entries: seq<string>, k: nat)
    requires k < |entries| && IsCoverName(entries[k])
    requires forall j :: 0 <= j < k ==> !IsCoverName(entries[j])
    ensures FirstCoverIndex(entries) == Some(k)
  {
  }

  /**
   * The first cover name among the image entries is the first entry of the
   * listing that is both an image and a cover name.
   */
  lemma {:induction false} IntendedFirstCover(directory: seq<string>)
    ensures var images := IntendedImageEntries(directory);
            FirstCoverIndex(images).Some? ==>
              exists m :: 0 <= m < |directory| && IsImageCover(directory[m])
                          && images[FirstCoverIndex(images).value] == directory[m]
                          && forall j :: 0 <= j < m ==> !IsImageCover(directory[j])
    decreases |directory|
  {
    if directory != [] {
      var d' := directory[..|directory| - 1];
      var x := directory[|directory| - 1];
      var images' := IntendedImageEntries(d');
      var images := IntendedImageEntries(directory);
      assert images == images' + (if HasImageExtension(x) then [x] else []);
      IntendedFirstCover(d');
      match FirstCoverIndex(images')
      case Some(k) =>
        FirstCoverIndexIs(images, k);
        var m :| 0 <= m < |d'| && IsImageCover(d'[m]) && images'[k] == d'[m]
                 && forall j :: 0 <= j < m ==> !IsImageCover(d'[j]);
        assert directory[m] == d'[m];
        assert forall j :: 0 <= j < m ==> directory[j] == d'[j];
      case None =>
        forall j | 0 <= j < |d'| ensures !IsImageCover(directory[j]) {
          assert directory[j] == d'[j];
          if HasImageExtension(d'[j]) {
            assert d'[j] in images';
          }
        }
        if IsImageCover(x) {
          FirstCoverIndexIs(images, |images'|);
          assert IsImageCover(directory[|d'|]);
        }
    }
  }

  /**
   * The corrected `get_coverart`: the first entry of the listing that has an
   * image extension and a keyword in its name, or `None` exactly when there
   * is no such entry.
   */
  function IntendedCoverArt(directoryPath: string, directory: seq<string>): (r: Option<string>)
    ensures r.Some? ==> exists k :: 0 <= k < |directory| && IsImageCover(directory[k])
                                    && r.value == Join(directoryPath, directory[k])
                                    && forall j :: 0 <= j < k ==> !IsImageCover(directory[j])
    ensures r.None? <==> forall e :: e in directory ==> !IsImageCover(e)
  {
    var images := IntendedImageEntries(directory);
    IntendedFirstCover(directory);
    var r := CoverPath(directoryPath, images);
    assert r.Some? ==> images[FirstCoverIndex(images).value] in images;
    r
  }

  lemma TextFileIsNoImage()
    ensures !HasImageExtension("cover.txt")
  {
    assert "cover.txt" == "cover" + [ExtSep] + "txt";
    SplitAfter("cover", ExtSep, "txt");
    SplitWithoutSep("txt", ExtSep);
    assert Lower("txt") == "txt";
  }

  lemma TextFileIsCoverName()
    ensures IsCoverName("cover.txt")
  {
  }

  lemma TextFileCoverPath()
    ensures CoverPath("album", ["cover.txt"]) == Some("album/cover.txt")
  {
    TextFileIsCoverName();
    assert !StartsWith("cover.txt", "/") by { assert "cover.txt"[..1][0] != '/'; }
    var entries := ["cover.txt"];
    assert entries[0] == "cover.txt";
    assert FirstCoverIndex(entries) == Some(0);
    assert Join("album", "cover.txt") == "album/cover.txt";
  }

  /** As written, a text file called `cover.txt` is returned as the cover art. */
  lemma NonImageCoverReturned()
    ensures CoverPath("album", ImageEntries(["cover.txt"])) == Some("album/cover.txt")
  {
    ImageEntriesKeepsAll(["cover.txt"]);
    TextFileCoverPath();
  }

  /** With the intended filter, `cover.txt` is no cover art. */
  lemma NonImageCoverSkipped()
    ensures IntendedCoverArt("album", ["cover.txt"]) == None
  {
    TextFileIsNoImage();
  }
}
