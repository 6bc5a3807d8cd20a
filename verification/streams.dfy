/** The stream choice of `FfmpegService.FindBestSubtitleStreamAsync`: among
    the subtitle streams ffprobe reports, prefer English, drop streams whose
    language names a hearing-impaired variant, prefer streams tagged as
    dialogue, avoid streams tagged as signs or songs, and fall back step by
    step. The probe itself is not modelled: the streams are the input. */
module Streams {
  import opened Wrappers
  import opened Text
  import opened Lists

  /** One subtitle stream as ffprobe reports it: its index, its language tag
      (absent when untagged), its codec, and the values of its tags (a
      stream without tags has none). */
  datatype Stream = Stream(index: int, language: Option<string>, codecName: string, tagValues: seq<string>)

  /** `SubtitleStreamInfo`, the description of the chosen stream. */
  datatype StreamInfo = StreamInfo(streamIndex: int, language: string, codecName: string, isSdh: bool)

  const SdhKeywords: seq<string> := ["sdh", "hearing impaired", "descriptive", "cc", "closed caption"]
  const NonDialogTags: seq<string> := ["S&S", "Honorifics", "Signs", "Songs"]

  /** The language is "eng" or "en", ignoring case. */
  predicate IsEnglish(s: Stream) {
    s.language.Some? && (Lower(s.language.value) == "eng" || Lower(s.language.value) == "en")
  }

  /** The language contains one of the hearing-impaired keywords, ignoring
      case; an untagged language contains none. */
  predicate IsSdhLanguage(language: Option<string>) {
    language.Some? && exists k :: k in SdhKeywords && ContainsIgnoreCase(Lower(language.value), k)
  }

  /** Some tag value contains `word`, ignoring case. */
  predicate HasTag(s: Stream, word: string) {
    exists v :: v in s.tagValues && ContainsIgnoreCase(v, word)
  }

  predicate IsDialog(s: Stream) {
    HasTag(s, "Dialog")
  }

  predicate IsKnownNonDialog(s: Stream) {
    exists tag :: tag in NonDialogTags && HasTag(s, tag)
  }

  /** The description returned for the chosen stream: an untagged language
      is reported as "und". */
  function Describe(s: Stream): StreamInfo {
    StreamInfo(s.index, s.language.GetOr("und"), s.codecName, IsSdhLanguage(s.language))
  }

  /** The stream `FindBestSubtitleStreamAsync` picks, following its filters
      and its chain of fallbacks as written; none when there are no subtitle
      streams. */
  function SelectStream(ss: seq<Stream>): (r: Option<Stream>)
    ensures r.None? <==> |ss| == 0
    ensures r.Some? ==> r.value in ss
  {
    if |ss| == 0 then None
    else
      var english := Filter(ss, IsEnglish);
      var nonSdh := Filter(if |english| > 0 then english else ss, (s: Stream) => !IsSdhLanguage(s.language));
      var dialog := Filter(nonSdh, IsDialog);
      if |dialog| > 0 then Some(dialog[0])
      else
        var dialogOrUnknown := Filter(nonSdh, (s: Stream) => !IsKnownNonDialog(s));
        if |dialogOrUnknown| > 0 then Some(dialogOrUnknown[0])
        else if |nonSdh| > 0 then Some(nonSdh[0])
        else if |english| > 0 then Some(english[0])
        else Some(ss[0])
  }

  /** `FindBestSubtitleStreamAsync` on the probed streams: the description
      of the stream `SelectStream` picks, so the tier lemmas below carry
      over to it. */
  function FindBestSubtitleStream(ss: seq<Stream>): (r: Option<StreamInfo>)
    ensures r.None? <==> |ss| == 0
    ensures r.Some? ==> exists s :: s in ss && r.value == Describe(s)
    ensures r.Some? ==> (r.value.language == "und" <==> SelectStream(ss).value.language.GetOr("und") == "und")
    ensures r.Some? ==> r.value == Describe(SelectStream(ss).value)
  {
    match SelectStream(ss)
    case None => None
    case Some(s) => Some(Describe(s))
  }

  // ---------------------------------------------------------------------
  // The choice stated as tiers

  predicate HasEnglish(ss: seq<Stream>) {
    exists i :: 0 <= i < |ss| && IsEnglish(ss[i])
  }

  /** The candidates: the English streams when there are any, else all. */
  function Candidate(ss: seq<Stream>): Stream -> bool {
    (s: Stream) => !HasEnglish(ss) || IsEnglish(s)
  }

  /** The four tiers of the choice, best first: non-SDH dialogue
      candidates, non-SDH candidates without a signs-or-songs tag, non-SDH
      candidates, and all candidates. */
  function Tier(ss: seq<Stream>, n: int): Stream -> bool
    requires 1 <= n <= 4
  {
    var c := Candidate(ss);
    if n == 1 then (s: Stream) => c(s) && !IsSdhLanguage(s.language) && IsDialog(s)
    else if n == 2 then (s: Stream) => c(s) && !IsSdhLanguage(s.language) && !IsKnownNonDialog(s)
    else if n == 3 then (s: Stream) => c(s) && !IsSdhLanguage(s.language)
    else c
  }

  /** The choice is the first stream of the best tier that is not empty:
      tier `n`, position `k`. */
  lemma SelectIsFirstOfBestTier(ss: seq<Stream>) returns (n: int, k: int)
    requires |ss| > 0
    ensures 1 <= n <= 4 && FirstAt(ss, Tier(ss, n), k) && SelectStream(ss) == Some(ss[k])
    ensures n > 1 ==> !AnyIn(ss, Tier(ss, 1))
    ensures n > 2 ==> !AnyIn(ss, Tier(ss, 2))
    ensures n > 3 ==> !AnyIn(ss, Tier(ss, 3))
  {
    TierLists(ss);
    FilterNonEmpty(ss, Tier(ss, 1));
    FilterNonEmpty(ss, Tier(ss, 2));
    FilterNonEmpty(ss, Tier(ss, 3));
    FilterNonEmpty(ss, Tier(ss, 4));
    if AnyIn(ss, Tier(ss, 1)) {
      n := 1;
    } else if AnyIn(ss, Tier(ss, 2)) {
      n := 2;
    } else if AnyIn(ss, Tier(ss, 3)) {
      n := 3;
    } else {
      n := 4;
    }
    k := FilterHead(ss, Tier(ss, n));
  }

  /** The lists `SelectStream` builds are the tiers, filtered from the
      probed streams. */
  lemma TierLists(ss: seq<Stream>)
    requires |ss| > 0
    ensures var english := Filter(ss, IsEnglish);
      var nonSdh := Filter(if |english| > 0 then english else ss, (s: Stream) => !IsSdhLanguage(s.language));
      && |Filter(ss, Tier(ss, 4))| > 0
      && nonSdh == Filter(ss, Tier(ss, 3))
      && Filter(nonSdh, IsDialog) == Filter(ss, Tier(ss, 1))
      && Filter(nonSdh, (s: Stream) => !IsKnownNonDialog(s)) == Filter(ss, Tier(ss, 2))
      && SelectStream(ss) == Some(
        if |Filter(ss, Tier(ss, 1))| > 0 then Filter(ss, Tier(ss, 1))[0]
        else if |Filter(ss, Tier(ss, 2))| > 0 then Filter(ss, Tier(ss, 2))[0]
        else if |Filter(ss, Tier(ss, 3))| > 0 then Filter(ss, Tier(ss, 3))[0]
        else Filter(ss, Tier(ss, 4))[0])
  {
    var english := Filter(ss, IsEnglish);
    var cand := if |english| > 0 then english else ss;
    assert |english| > 0 <==> HasEnglish(ss);
    if |english| > 0 {
      FilterSame(ss, IsEnglish, Tier(ss, 4));
    } else {
      FilterAll(ss, Tier(ss, 4));
    }
    assert cand == Filter(ss, Tier(ss, 4));
    var nonSdh := Filter(cand, (s: Stream) => !IsSdhLanguage(s.language));
    FilterFilter(ss, Tier(ss, 4), (s: Stream) => !IsSdhLanguage(s.language), Tier(ss, 3));
    FilterFilter(ss, Tier(ss, 3), IsDialog, Tier(ss, 1));
    FilterFilter(ss, Tier(ss, 3), (s: Stream) => !IsKnownNonDialog(s), Tier(ss, 2));
  }

  /** When some stream is English the choice is English; when some
      candidate is a non-SDH dialogue stream the choice is one; and the
      description reports SDH only when every candidate is SDH. */
  lemma SelectionPreferences(ss: seq<Stream>)
    requires |ss| > 0
    ensures HasEnglish(ss) ==> IsEnglish(SelectStream(ss).value)
    ensures AnyIn(ss, Tier(ss, 1)) ==> !IsSdhLanguage(SelectStream(ss).value.language) && IsDialog(SelectStream(ss).value)
    ensures FindBestSubtitleStream(ss).value.isSdh ==>
      forall i :: 0 <= i < |ss| && Candidate(ss)(ss[i]) ==> IsSdhLanguage(ss[i].language)
  {
    var n, k := SelectIsFirstOfBestTier(ss);
    if FindBestSubtitleStream(ss).value.isSdh {
      assert n == 4;
    }
  }
}
