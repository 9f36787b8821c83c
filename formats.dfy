/**
 * The /download route of app.py: the availability check on the resolver's
 * answer, the video filter (usable formats, de-duplicated by height and
 * container, all of 720p and above or else the single tallest below) and
 * the audio picker (the audio-only stream of strictly highest bitrate).
 */
module Formats {
  import opened Wrappers

  /** One entry of the resolver's "formats" list; absent keys are None. */
  datatype Format = Format(
    formatId: string,
    ext: Option<string>,
    height: Option<int>,
    vcodec: Option<string>,
    abr: Option<int>)

  /** The resolver's answer; is_live absent counts as false. */
  datatype Info = Info(
    kind: Option<string>,
    isLive: bool,
    title: Option<string>,
    formats: Option<seq<Format>>)

  /** A video entry of the listing ("resolution" is height followed by "p"). */
  datatype VideoItem = VideoItem(formatId: string, ext: string, height: int, vcodec: string)

  /** The audio entry of the listing; the route always labels it "MP3". */
  datatype AudioItem = AudioItem(formatId: string, ext: string, abr: int, vcodec: string)

  /** What the video filter settles on. */
  datatype VideoPick =
    | HdFormats(items: seq<VideoItem>)
    | BestBelowHd(item: VideoItem)
    | NoVideoFormat

  datatype Listing =
    | VideoListing(title: Option<string>, videos: seq<VideoItem>, hdAvailable: bool)
    | AudioListing(title: Option<string>, audio: AudioItem)

  datatype ListingError =
    | MissingUrl
    | ExtractionFailed
    | Unavailable
    | NoUsableVideo
    | NoAudio
    | UnknownType

  /** Python truthiness of an optional string: present and not empty. */
  predicate Present(o: Option<string>) {
    o.Some? && o.value != ""
  }

  const HdHeight: int := 720

  // ---------------------------------------------------------------------
  // Availability check

  /**
   * The route refuses an answer that is a bare URL reference, a live
   * stream, or that lists no formats; otherwise it works on the list.
   */
  function CheckAvailable(info: Info): (r: Result<seq<Format>, ListingError>)
    ensures r.Success? <==> info.kind != Some("url") && !info.isLive
                            && info.formats.Some? && info.formats.value != []
    ensures r.Success? ==> r.value == info.formats.value && r.value != []
    ensures r.Failure? ==> r.error == Unavailable
  {
    if info.kind == Some("url") || info.isLive || info.formats.None? || info.formats.value == [] then
      Failure(Unavailable)
    else
      Success(info.formats.value)
  }

  // ---------------------------------------------------------------------
  // Video filter: specification

  /** A format with a (non-zero) height, an extension and a real video codec. */
  predicate Usable(f: Format) {
    f.height.Some? && f.height.value != 0 && Present(f.ext) && Present(f.vcodec)
    && f.vcodec.value != "none"
  }

  function KeyOf(f: Format): (int, string)
    requires Usable(f)
  {
    (f.height.value, f.ext.value)
  }

  function ItemOf(f: Format): VideoItem
    requires Usable(f)
  {
    VideoItem(f.formatId, f.ext.value, f.height.value, f.vcodec.value)
  }

  /** fs[i] is usable and no earlier usable format has its (height, ext). */
  predicate FirstOccurrence(fs: seq<Format>, i: int)
    requires 0 <= i < |fs|
  {
    Usable(fs[i]) && forall j :: 0 <= j < i && Usable(fs[j]) ==> KeyOf(fs[j]) != KeyOf(fs[i])
  }

  predicate IsHd(fs: seq<Format>, i: int)
    requires 0 <= i < |fs|
  {
    FirstOccurrence(fs, i) && fs[i].height.value >= HdHeight
  }

  /** A usable format of positive height below 720. */
  predicate IsLow(f: Format) {
    Usable(f) && 0 < f.height.value < HdHeight
  }

  /** The positions of the de-duplicated formats of 720p and above, in order. */
  function HdIndices(fs: seq<Format>): (idx: seq<int>)
    ensures forall k :: 0 <= k < |idx| ==> 0 <= idx[k] < |fs| && IsHd(fs, idx[k])
    decreases |fs|
  {
    if fs == [] then []
    else
      var n := |fs| - 1;
      var prefix := fs[..n];
      var before := HdIndices(prefix);
      assert forall k :: 0 <= k < |before| ==> IsHd(fs, before[k]) by {
        forall k | 0 <= k < |before| ensures IsHd(fs, before[k]) {
          assert IsHd(prefix, before[k]);
        }
      }
      before + (if IsHd(fs, n) then [n] else [])
  }

  /** The listing entries of HdIndices(fs). */
  function HdItems(fs: seq<Format>): seq<VideoItem> {
    var idx := HdIndices(fs);
    seq(|idx|, k requires 0 <= k < |idx| => ItemOf(fs[idx[k]]))
  }

  /** The earliest low format of greatest height, if any. */
  function BestLow(fs: seq<Format>): (r: Option<int>)
    ensures r.Some? ==> 0 <= r.value < |fs| && IsLow(fs[r.value])
    decreases |fs|
  {
    if fs == [] then None
    else
      var n := |fs| - 1;
      var prev := BestLow(fs[..n]);
      if IsLow(fs[n]) && (prev.None? || fs[n].height.value > fs[prev.value].height.value) then Some(n)
      else prev
  }

  /** The result the video branch of the route reports. */
  function SelectVideo(fs: seq<Format>): VideoPick {
    var hd := HdItems(fs);
    if hd != [] then HdFormats(hd)
    else match BestLow(fs)
      case Some(k) => BestBelowHd(ItemOf(fs[k]))
      case None => NoVideoFormat
  }

  // ---------------------------------------------------------------------
  // Video filter: properties of the specification

  /**
   * HdIndices lists exactly the first occurrences of height >= 720, each
   * once, in increasing order: the listing keeps the input order.
   */
  lemma {:induction false} HdIndicesExact(fs: seq<Format>)
    ensures forall i :: 0 <= i < |fs| ==> (IsHd(fs, i) <==> i in HdIndices(fs))
    ensures forall a, b :: 0 <= a < b < |HdIndices(fs)| ==> HdIndices(fs)[a] < HdIndices(fs)[b]
    decreases |fs|
  {
    if fs != [] {
      var n := |fs| - 1;
      var prefix := fs[..n];
      HdIndicesExact(prefix);
      forall i | 0 <= i < n ensures IsHd(fs, i) <==> IsHd(prefix, i) {
        assert forall j :: 0 <= j <= i ==> prefix[j] == fs[j];
      }
    }
  }

  /** No two HD entries share a (height, ext) pair. */
  lemma HdKeysDistinct(fs: seq<Format>)
    ensures forall a, b :: 0 <= a < b < |HdItems(fs)| ==>
      (HdItems(fs)[a].height, HdItems(fs)[a].ext) != (HdItems(fs)[b].height, HdItems(fs)[b].ext)
  {
    var idx := HdIndices(fs);
    HdIndicesExact(fs);
    forall a, b | 0 <= a < b < |idx|
      ensures (HdItems(fs)[a].height, HdItems(fs)[a].ext) != (HdItems(fs)[b].height, HdItems(fs)[b].ext)
    {
      assert idx[a] < idx[b];
      assert FirstOccurrence(fs, idx[b]);
      assert KeyOf(fs[idx[a]]) != KeyOf(fs[idx[b]]);
    }
  }

  /** BestLow is the earliest low format whose height no low format exceeds. */
  lemma {:induction false} BestLowExact(fs: seq<Format>)
    ensures BestLow(fs).None? <==> forall j :: 0 <= j < |fs| ==> !IsLow(fs[j])
    ensures BestLow(fs).Some? ==>
      var k := BestLow(fs).value;
      (forall j :: 0 <= j < |fs| && IsLow(fs[j]) ==> fs[j].height.value <= fs[k].height.value)
      && (forall j :: 0 <= j < k && IsLow(fs[j]) ==> fs[j].height.value < fs[k].height.value)
    decreases |fs|
  {
    if fs != [] {
      var n := |fs| - 1;
      var prefix := fs[..n];
      BestLowExact(prefix);
      assert forall j :: 0 <= j < n ==> prefix[j] == fs[j];
    }
  }

  /**
   * Whatever the video filter reports comes from usable formats: each has a
   * height, an extension and a video codec other than "none".
   */
  lemma SelectVideoUsable(fs: seq<Format>)
    ensures SelectVideo(fs).HdFormats? ==>
      forall k :: 0 <= k < |SelectVideo(fs).items| ==>
        var it := SelectVideo(fs).items[k];
        it.height >= HdHeight && it.ext != "" && it.vcodec != "" && it.vcodec != "none"
        && exists i :: 0 <= i < |fs| && IsHd(fs, i) && it == ItemOf(fs[i])
    ensures SelectVideo(fs).BestBelowHd? ==>
      var it := SelectVideo(fs).item;
      && 0 < it.height < HdHeight && it.ext != "" && it.vcodec != "" && it.vcodec != "none"
      && exists i :: 0 <= i < |fs| && FirstOccurrence(fs, i) && IsLow(fs[i]) && it == ItemOf(fs[i])
  {
    var idx := HdIndices(fs);
    if SelectVideo(fs).BestBelowHd? {
      BestLowExact(fs);
      assert FirstOccurrence(fs, BestLow(fs).value);
    }
    if SelectVideo(fs).HdFormats? {
      forall k | 0 <= k < |SelectVideo(fs).items|
        ensures exists i :: 0 <= i < |fs| && IsHd(fs, i) && SelectVideo(fs).items[k] == ItemOf(fs[i])
      {
        assert SelectVideo(fs).items[k] == ItemOf(fs[idx[k]]);
      }
    }
  }

  /**
   * The three outcomes: the HD list whenever some de-duplicated format is
   * 720p or above, else the tallest low format, else an error.
   */
  lemma SelectVideoCases(fs: seq<Format>)
    ensures SelectVideo(fs).HdFormats? <==> exists i :: 0 <= i < |fs| && IsHd(fs, i)
    ensures SelectVideo(fs).NoVideoFormat? <==>
      forall i :: 0 <= i < |fs| ==> !IsHd(fs, i) && !IsLow(fs[i])
  {
    HdIndicesExact(fs);
    BestLowExact(fs);
    var idx := HdIndices(fs);
    assert |HdItems(fs)| == |idx|;
    if exists i :: 0 <= i < |fs| && IsHd(fs, i) {
      var i :| 0 <= i < |fs| && IsHd(fs, i);
      assert i in idx;
    }
    if idx != [] {
      assert IsHd(fs, idx[0]);
    }
  }

  // ---------------------------------------------------------------------
  // Video filter: the loop of the route

  lemma HdItemsStep(fs: seq<Format>, i: int)
    requires 0 <= i < |fs|
    ensures HdItems(fs[..i + 1]) ==
      HdItems(fs[..i]) + (if IsHd(fs, i) then [ItemOf(fs[i])] else [])
  {
    var pre := fs[..i + 1];
    assert pre[..i] == fs[..i];
    assert IsHd(pre, i) == IsHd(fs, i);
  }

  lemma BestLowStep(fs: seq<Format>, i: int)
    requires 0 <= i < |fs|
    ensures BestLow(fs[..i + 1]) ==
      var prev := BestLow(fs[..i]);
      if IsLow(fs[i]) && (prev.None? || fs[i].height.value > fs[prev.value].height.value) then Some(i)
      else prev
  {
    var pre := fs[..i + 1];
    assert pre[..i] == fs[..i];
  }

  /**
   * The video branch's loop: it skips unusable formats and repeated
   * (height, ext) pairs, collects the HD ones and remembers the first
   * tallest below 720.
   */
  method FilterVideo(formats: seq<Format>) returns (pick: VideoPick)
    ensures pick == SelectVideo(formats)
  {
    var seen: set<(int, string)> := {};
    var filteredHd: seq<VideoItem> := [];
    var bestFormat: Option<VideoItem> := None;
    var maxHeight := 0;
    for i := 0 to |formats|
      invariant seen == set j | 0 <= j < i && Usable(formats[j]) :: KeyOf(formats[j])
      invariant filteredHd == HdItems(formats[..i])
      invariant BestLow(formats[..i]).None? ==> bestFormat.None? && maxHeight == 0
      invariant BestLow(formats[..i]).Some? ==>
        var k := BestLow(formats[..i]).value;
        bestFormat == Some(ItemOf(formats[k])) && maxHeight == formats[k].height.value
      invariant forall j :: 0 <= j < i && IsLow(formats[j]) ==> formats[j].height.value <= maxHeight
    {
      var fmt := formats[i];
      HdItemsStep(formats, i);
      BestLowStep(formats, i);
      if !Usable(fmt) {
        continue;
      }
      var height := fmt.height.value;
      var key := (height, fmt.ext.value);
      if key in seen {
        var j :| 0 <= j < i && Usable(formats[j]) && KeyOf(formats[j]) == key;
        assert !IsHd(formats, i);
        assert IsLow(fmt) ==> IsLow(formats[j]);
        continue;
      }
      seen := seen + {key};
      var item := ItemOf(fmt);
      if height >= HdHeight {
        filteredHd := filteredHd + [item];
      } else if height > maxHeight {
        bestFormat := Some(item);
        maxHeight := height;
      }
    }
    assert formats[..|formats|] == formats;
    if filteredHd != [] {
      pick := HdFormats(filteredHd);
    } else if bestFormat.Some? {
      pick := BestBelowHd(bestFormat.value);
    } else {
      pick := NoVideoFormat;
    }
  }

  // ---------------------------------------------------------------------
  // Audio picker

  /** An audio-only stream in a kept container with a positive bitrate. */
  predicate AudioEligible(f: Format) {
    f.ext.Some? && f.ext.value in ["mp3", "m4a", "webm"] && f.vcodec == Some("none")
    && f.abr.Some? && f.abr.value > 0
  }

  /** fs[k] has the highest bitrate of the eligible streams, and is the first such. */
  predicate IsBestAudio(fs: seq<Format>, k: int) {
    0 <= k < |fs| && AudioEligible(fs[k])
    && (forall j :: 0 <= j < |fs| && AudioEligible(fs[j]) ==> fs[j].abr.value <= fs[k].abr.value)
    && (forall j :: 0 <= j < k && AudioEligible(fs[j]) ==> fs[j].abr.value < fs[k].abr.value)
  }

  function AudioItemOf(f: Format): AudioItem
    requires AudioEligible(f)
  {
    AudioItem(f.formatId, "MP3", f.abr.value, "none")
  }

  /** The position of the stream the picker settles on, if any. */
  function BestAudio(fs: seq<Format>): (r: Option<int>)
    ensures r.Some? ==> 0 <= r.value < |fs| && AudioEligible(fs[r.value])
    decreases |fs|
  {
    if fs == [] then None
    else
      var n := |fs| - 1;
      var prev := BestAudio(fs[..n]);
      if AudioEligible(fs[n]) && (prev.None? || fs[n].abr.value > fs[prev.value].abr.value) then Some(n)
      else prev
  }

  /** The listing entry of the picked stream. */
  function AudioChoice(fs: seq<Format>): Option<AudioItem> {
    match BestAudio(fs)
    case Some(k) => Some(AudioItemOf(fs[k]))
    case None => None
  }

  /**
   * The picker finds nothing exactly when no stream is eligible, and
   * otherwise a stream of highest bitrate that no earlier eligible stream
   * ties: the first of the best.
   */
  lemma {:induction false} BestAudioExact(fs: seq<Format>)
    ensures BestAudio(fs).None? <==> forall j :: 0 <= j < |fs| ==> !AudioEligible(fs[j])
    ensures BestAudio(fs).Some? ==> IsBestAudio(fs, BestAudio(fs).value)
    decreases |fs|
  {
    if fs != [] {
      var n := |fs| - 1;
      var prefix := fs[..n];
      BestAudioExact(prefix);
      assert forall j :: 0 <= j < n ==> prefix[j] == fs[j];
    }
  }

  /** Only one position is the first of the highest bitrate. */
  lemma BestAudioUnique(fs: seq<Format>, k1: int, k2: int)
    requires IsBestAudio(fs, k1) && IsBestAudio(fs, k2)
    ensures k1 == k2
  {
  }

  lemma BestAudioStep(fs: seq<Format>, i: int)
    requires 0 <= i < |fs|
    ensures BestAudio(fs[..i + 1]) ==
      var prev := BestAudio(fs[..i]);
      if AudioEligible(fs[i]) && (prev.None? || fs[i].abr.value > fs[prev.value].abr.value) then Some(i)
      else prev
  {
    var pre := fs[..i + 1];
    assert pre[..i] == fs[..i];
  }

  /**
   * The audio branch's loop: keeps the candidate whose bitrate is strictly
   * above the best so far, so the first of equal bitrates wins.
   */
  method PickAudio(formats: seq<Format>) returns (best: Option<AudioItem>)
    ensures best == AudioChoice(formats)
  {
    best := None;
    var bestBitrate := 0;
    for i := 0 to |formats|
      invariant BestAudio(formats[..i]).None? ==> best.None? && bestBitrate == 0
      invariant BestAudio(formats[..i]).Some? ==>
        var k := BestAudio(formats[..i]).value;
        best == Some(AudioItemOf(formats[k])) && bestBitrate == formats[k].abr.value
    {
      var fmt := formats[i];
      BestAudioStep(formats, i);
      if fmt.ext.Some? && fmt.ext.value in ["mp3", "m4a", "webm"] && fmt.vcodec == Some("none") {
        if fmt.abr.Some? && fmt.abr.value != 0 && fmt.abr.value > bestBitrate {
          bestBitrate := fmt.abr.value;
          best := Some(AudioItem(fmt.formatId, "MP3", fmt.abr.value, "none"));
        }
      }
    }
    assert formats[..|formats|] == formats;
  }

  // ---------------------------------------------------------------------
  // The route

  /**
   * POST /download: check the URL, ask the resolver, apply the
   * availability check and run the branch the requested type names
   * ("video" when absent). A type other than "video" or "audio" gets no
   * listing.
   */
  method Download(url: Option<string>, kind: Option<string>, resolve: string -> Option<Info>)
    returns (r: Result<Listing, ListingError>)
    ensures !Present(url) ==> r == Failure(MissingUrl)
    ensures Present(url) && resolve(url.value).None? ==> r == Failure(ExtractionFailed)
    ensures (Present(url) && resolve(url.value).Some?
             && CheckAvailable(resolve(url.value).value).Failure?) ==> r == Failure(Unavailable)
    ensures (Present(url) && resolve(url.value).Some? && CheckAvailable(resolve(url.value).value).Success?
             && kind.GetOr("video") == "video") ==>
      var info := resolve(url.value).value;
      match SelectVideo(info.formats.value)
      case HdFormats(items) => r == Success(VideoListing(info.title, items, true))
      case BestBelowHd(item) => r == Success(VideoListing(info.title, [item], false))
      case NoVideoFormat => r == Failure(NoUsableVideo)
    ensures (Present(url) && resolve(url.value).Some? && CheckAvailable(resolve(url.value).value).Success?
             && kind.GetOr("video") == "audio") ==>
      var info := resolve(url.value).value;
      match AudioChoice(info.formats.value)
      case Some(item) => r == Success(AudioListing(info.title, item))
      case None => r == Failure(NoAudio)
    ensures (Present(url) && resolve(url.value).Some? && CheckAvailable(resolve(url.value).value).Success?
             && kind.GetOr("video") !in {"video", "audio"}) ==> r == Failure(UnknownType)
  {
    if !Present(url) {
      return Failure(MissingUrl);
    }
    var answer := resolve(url.value);
    if answer.None? {
      return Failure(ExtractionFailed);
    }
    var info := answer.value;
    var available := CheckAvailable(info);
    if available.Failure? {
      return Failure(Unavailable);
    }
    var formats := available.value;
    var contentType := kind.GetOr("video");
    if contentType == "video" {
      var pick := FilterVideo(formats);
      match pick {
        case HdFormats(items) => r := Success(VideoListing(info.title, items, true));
        case BestBelowHd(item) => r := Success(VideoListing(info.title, [item], false));
        case NoVideoFormat => r := Failure(NoUsableVideo);
      }
    } else if contentType == "audio" {
      var best := PickAudio(formats);
      if best.None? {
        r := Failure(NoAudio);
      } else {
        r := Success(AudioListing(info.title, best.value));
      }
    } else {
      r := Failure(UnknownType);
    }
  }
}
