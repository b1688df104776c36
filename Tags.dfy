/**
 * The tag-frame helpers of lib.py: the choice of the embedded picture in
 * `get_coverart_pixmap_from_metadata`, and class `Metadata`, which reads the
 * title (`TIT2`) and album (`TALB`) frames.
 */
module Tags {
  import opened Wrappers
  import opened Text

  newtype byte = x: int | 0 <= x < 256

  /** A tag frame: text frames expose `.text`, picture frames `.data`. */
  datatype Frame =
    | TextFrame(text: seq<string>)
    | PictureFrame(data: seq<byte>)

  /**
   * The tag dictionary handed over by the tagging library: its frames by
   * identifier, and `keys`, the order in which `.keys()` iterates them.
   */
  datatype TagDict = TagDict(keys: seq<string>, frames: map<string, Frame>) {
    /** `keys` lists each key of `frames` exactly once. */
    predicate Valid() {
      (forall i, j :: 0 <= i < j < |keys| ==> keys[i] != keys[j])
      && (forall k :: k in frames ==> k in keys)
      && (forall k :: k in keys ==> k in frames)
    }
  }

  // ---------------------------------------------------------------- the embedded picture

  const ApicPrefix: string := "APIC"

  predicate IsApicKey(k: string) {
    StartsWith(k, ApicPrefix)
  }

  /** Index of the last key that starts with `APIC`, if any. */
  function LastApicIndex(keys: seq<string>): (i: Option<nat>)
    ensures i.None? <==> forall j :: 0 <= j < |keys| ==> !IsApicKey(keys[j])
    ensures i.Some? ==> i.value < |keys| && IsApicKey(keys[i.value])
                        && forall j :: i.value < j < |keys| ==> !IsApicKey(keys[j])
    decreases |keys|
  {
    if keys == [] then None
    else if IsApicKey(keys[|keys| - 1]) then Some(|keys| - 1)
    else LastApicIndex(keys[..|keys| - 1])
  }

  /** The key `LastApicIndex` designates. */
  function LastApicKey(keys: seq<string>): (apic: Option<string>)
    ensures apic.None? <==> forall j :: 0 <= j < |keys| ==> !IsApicKey(keys[j])
    ensures apic.Some? ==> exists i :: 0 <= i < |keys| && keys[i] == apic.value && IsApicKey(keys[i])
                                       && forall j :: i < j < |keys| ==> !IsApicKey(keys[j])
  {
    match LastApicIndex(keys)
    case None => None
    case Some(i) => Some(keys[i])
  }

  /**
   * The loop of `get_coverart_pixmap_from_metadata`: `apic` is overwritten
   * by every key starting with `APIC`, so the last such key wins.
   */
  method SelectApicKey(keys: seq<string>) returns (apic: Option<string>)
    ensures apic == LastApicKey(keys)
  {
    apic := None;
    for n := 0 to |keys|
      invariant apic == LastApicKey(keys[..n])
    {
      var k := keys[n];
      if StartsWith(k, ApicPrefix) {
        apic := Some(k);
      }
      assert keys[..n + 1][..n] == keys[..n];
    }
    assert keys[..|keys|] == keys;
  }

  /**
   * `get_coverart_pixmap_from_metadata(metadata)` up to the picture decoding:
   * the bytes that would be loaded into the pixmap, `None` when no key starts
   * with `APIC`, and `AttributeError` when the chosen frame has no `.data`.
   */
  method CoverArtPictureData(metadata: TagDict) returns (r: Result<Option<seq<byte>>, Raised>)
    requires metadata.Valid()
    ensures r == Success(None) <==> forall j :: 0 <= j < |metadata.keys| ==> !IsApicKey(metadata.keys[j])
    ensures r.Success? && r.value.Some? ==>
              LastApicKey(metadata.keys).Some? && LastApicKey(metadata.keys).value in metadata.frames
              && metadata.frames[LastApicKey(metadata.keys).value] == PictureFrame(r.value.value)
    ensures r == Failure(AttributeError) <==>
              LastApicKey(metadata.keys).Some? && LastApicKey(metadata.keys).value in metadata.frames
              && metadata.frames[LastApicKey(metadata.keys).value].TextFrame?
    ensures r.Failure? ==> r.error == AttributeError
  {
    var apic := SelectApicKey(metadata.keys);
    if apic != None {
      var frame := metadata.frames[apic.value];
      if frame.PictureFrame? {
        r := Success(Some(frame.data));
      } else {
        r := Failure(AttributeError);
      }
    } else {
      r := Success(None);
    }
  }

  /** With two pictures in the dictionary, the one iterated last is chosen. */
  lemma LastPictureWins(first: string, second: string, others: seq<string>)
    requires IsApicKey(first) && IsApicKey(second)
    requires forall j :: 0 <= j < |others| ==> !IsApicKey(others[j])
    ensures LastApicKey([first, second] + others) == Some(second)
  {
    var keys := [first, second] + others;
    assert keys[1] == second;
    assert forall j :: 1 < j < |keys| ==> keys[j] == others[j - 2];
  }

  // ---------------------------------------------------------------- title and album

  /**
   * `mutagen_metadata[id].text[0]` guarded by `id in mutagen_metadata`:
   * `None` for an absent frame, the first text otherwise; an empty text list
   * raises `IndexError`, a frame without `.text` `AttributeError`.
   */
  function TextValue(frames: map<string, Frame>, id: string): (r: Result<Option<string>, Raised>)
    ensures r == Success(None) <==> id !in frames
    ensures r.Failure? <==> id in frames && !(frames[id].TextFrame? && |frames[id].text| > 0)
    ensures r == Failure(IndexError) <==> id in frames && frames[id].TextFrame? && |frames[id].text| == 0
    ensures r == Failure(AttributeError) <==> id in frames && frames[id].PictureFrame?
    ensures r.Success? && r.value.Some? ==>
              id in frames && frames[id].TextFrame? && r.value.value == frames[id].text[0]
  {
    if id !in frames then Success(None)
    else match frames[id]
      case PictureFrame(_) => Failure(AttributeError)
      case TextFrame(text) => if |text| == 0 then Failure(IndexError) else Success(Some(text[0]))
  }

  /** Reading a frame looks at that frame alone: changing any other entry leaves it alone. */
  lemma TextValueLocal(frames: map<string, Frame>, id: string, other: string, f: Frame)
    requires other != id
    ensures TextValue(frames[other := f], id) == TextValue(frames, id)
  {
  }

  /** `Metadata(mutagen_metadata)` returns instead of raising. */
  predicate Readable(frames: map<string, Frame>) {
    TextValue(frames, "TIT2").Success? && TextValue(frames, "TALB").Success?
  }

  /** The constructor returns exactly when every present title or album frame has some text. */
  lemma ReadableIff(frames: map<string, Frame>)
    ensures Readable(frames) <==>
              forall id :: id in frames && (id == "TIT2" || id == "TALB") ==>
                             frames[id].TextFrame? && |frames[id].text| > 0
  {
  }

  /** The title and album of one audio file. */
  class Metadata {
    var title: Option<string>
    var album: Option<string>

    constructor (mutagenMetadata: map<string, Frame>)
      requires Readable(mutagenMetadata)
      ensures title == TextValue(mutagenMetadata, "TIT2").value
      ensures album == TextValue(mutagenMetadata, "TALB").value
    {
      title := None;
      album := None;
      if "TIT2" in mutagenMetadata {
        title := Some(mutagenMetadata["TIT2"].text[0]);
      }
      if "TALB" in mutagenMetadata {
        album := Some(mutagenMetadata["TALB"].text[0]);
      }
    }
  }

  /** A title frame `["Song"]` and no album frame give title `Song` and no album. */
  method MetadataOfTitleOnly() returns (title: Option<string>, album: Option<string>)
    ensures title == Some("Song") && album == None
  {
    var m := new Metadata(map["TIT2" := TextFrame(["Song"])]);
    title, album := m.title, m.album;
  }
}
