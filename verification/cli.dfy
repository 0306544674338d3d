/** Decisions shared by both command-line tools: recognising a direct link,
    adding " audio" to a search, the numbered selection prompt, routing a
    query to a direct download or a search, and the downloader's option
    record. The search engine is a function from a query and a result limit
    to the results, or to `None` where the search raises, and the prompt's
    input is a finite sequence of typed lines. */
module Cli {

  import opened Wrappers
  import opened Strings

  /** One search result. */
  datatype Video = Video(title: string, url: string)

  /** Both tools treat a query as a direct link when it mentions either
      address form. */
  predicate IsYoutubeUrl(query: string): (b: bool)
    ensures b <==> exists i :: OccursAt(query, "youtube.com/watch", i) || OccursAt(query, "youtu.be/", i)
  {
    Contains(query, "youtube.com/watch") || Contains(query, "youtu.be/")
  }

  /** `f"{query} audio"` when audio is wanted and the query is not a link.
      Adding the word never turns a search into a link. */
  function AppendAudio(query: string, audio: bool): (r: string)
    ensures IsYoutubeUrl(r) == IsYoutubeUrl(query)
    ensures IsYoutubeUrl(query) || !audio ==> r == query
    ensures audio && !IsYoutubeUrl(query) ==> |r| == |query| + 6 && r[..|query|] == query && r[|query|..] == " audio"
  {
    ContainsAppend(query, " audio", "youtube.com/watch", ' ');
    ContainsAppend(query, " audio", "youtu.be/", ' ');
    if audio && !IsYoutubeUrl(query) then query + " audio" else query
  }

  /** CPython's default limit on the number of digits `int()` converts
      (`sys.int_info.default_max_str_digits`); a longer digit string makes
      it raise `ValueError`. */
  const MaxStrDigits := 4300

  /** A typed line the prompt accepts: digits only, short enough for
      `int()`, naming a listed item. */
  predicate ValidChoice(line: string, count: nat) {
    IsDigits(line) && |line| <= MaxStrDigits && 1 <= ParseDecimal(line) <= count
  }

  /** A line that passes `isdigit()` but that `int()` refuses. */
  predicate TooManyDigits(line: string) {
    IsDigits(line) && |line| > MaxStrDigits
  }

  /** A line the prompt answers with "Invalid selection" and reads on. */
  predicate Skipped(line: string, count: nat) {
    !ValidChoice(line, count) && !TooManyDigits(line)
  }

  /** How the prompt ends: a pick, `int()` raising on line `line`, or the
      input running out (where `input()` raises). Line numbers count from 0. */
  datatype Selection = Picked(line: nat, video: Video) | Overflow(line: nat) | Exhausted

  /** The same ending, one typed line later. */
  function Later(s: Selection): Selection {
    match s
    case Picked(i, v) => Picked(i + 1, v)
    case Overflow(i) => Overflow(i + 1)
    case Exhausted => Exhausted
  }

  /** `select_video`: reads lines until one is a valid choice `n` and answers
      item `n` (counting from 1); a digit line too long for `int()` aborts. */
  function SelectVideo(videos: seq<Video>, lines: seq<string>): (r: Selection)
    ensures r.Picked? ==>
              && r.line < |lines|
              && ValidChoice(lines[r.line], |videos|)
              && r.video == videos[ParseDecimal(lines[r.line]) - 1]
              && forall j :: 0 <= j < r.line ==> Skipped(lines[j], |videos|)
    ensures r.Overflow? ==>
              && r.line < |lines|
              && TooManyDigits(lines[r.line])
              && forall j :: 0 <= j < r.line ==> Skipped(lines[j], |videos|)
    ensures r.Exhausted? ==> forall j :: 0 <= j < |lines| ==> Skipped(lines[j], |videos|)
    decreases |lines|
  {
    if |lines| == 0 then Exhausted
    else if TooManyDigits(lines[0]) then Overflow(0)
    else if ValidChoice(lines[0], |videos|) then Picked(0, videos[ParseDecimal(lines[0]) - 1])
    else Later(SelectVideo(videos, lines[1..]))
  }

  /** Typing the number `k` is accepted exactly when `1 <= k <= |videos|`
      and `str(k)` is within `int()`'s digit limit, and then picks item `k`;
      any other number within the limit is skipped. */
  lemma {:induction false} NumeralChoice(videos: seq<Video>, k: nat, rest: seq<string>)
    ensures ValidChoice(NatToString(k), |videos|) <==> 1 <= k <= |videos| && |NatToString(k)| <= MaxStrDigits
    ensures TooManyDigits(NatToString(k)) <==> |NatToString(k)| > MaxStrDigits
    ensures 1 <= k <= |videos| && |NatToString(k)| <= MaxStrDigits ==>
              SelectVideo(videos, [NatToString(k)] + rest) == Picked(0, videos[k - 1])
    ensures !(1 <= k <= |videos|) && |NatToString(k)| <= MaxStrDigits ==>
              SelectVideo(videos, [NatToString(k)] + rest) == Later(SelectVideo(videos, rest))
  {
    ParseNatToString(k);
    assert ([NatToString(k)] + rest)[1..] == rest;
  }

  /** The result limit both command-line tools search with
      (`max_results=5`). */
  const MaxResults := 5

  /** `youtube_search(query, max_results)`: the results, or `None` where the
      search raises. */
  type SearchEngine = (string, nat) -> Option<seq<Video>>

  /** Where a query leads. */
  datatype Route =
    | Direct(url: string)
    | SearchFailed(query: string)
    | NoResults(query: string)
    | InputExhausted(query: string)
    | ChoiceRejected(query: string)
    | Chosen(query: string, video: Video)

  /** The routing both `main` functions share: a link is downloaded as it
      is; anything else is searched, an empty result list ends the run, and
      otherwise the user picks one result. */
  function RouteQuery(query: string, search: SearchEngine, lines: seq<string>): (r: Route)
    ensures r.Direct? <==> IsYoutubeUrl(query)
    ensures r.Direct? ==> r.url == query
    ensures !r.Direct? ==> r.query == query
    ensures r.SearchFailed? <==> !IsYoutubeUrl(query) && search(query, MaxResults).None?
    ensures r.NoResults? <==> !IsYoutubeUrl(query) && search(query, MaxResults) == Some([])
    ensures var found := search(query, MaxResults);
            r.Chosen? <==> !IsYoutubeUrl(query) && found.Some? && |found.value| > 0
                           && SelectVideo(found.value, lines).Picked?
    ensures r.Chosen? ==>
              && r.video == SelectVideo(search(query, MaxResults).value, lines).video
              && r.video in search(query, MaxResults).value
    ensures var found := search(query, MaxResults);
            r.InputExhausted? <==> !IsYoutubeUrl(query) && found.Some? && |found.value| > 0
                                   && SelectVideo(found.value, lines).Exhausted?
    ensures var found := search(query, MaxResults);
            r.ChoiceRejected? <==> !IsYoutubeUrl(query) && found.Some? && |found.value| > 0
                                   && SelectVideo(found.value, lines).Overflow?
  {
    if IsYoutubeUrl(query) then Direct(query)
    else
      match search(query, MaxResults)
      case None => SearchFailed(query)
      case Some(videos) =>
        if |videos| == 0 then NoResults(query)
        else
          match SelectVideo(videos, lines)
          case Picked(_, v) => Chosen(query, v)
          case Overflow(_) => ChoiceRejected(query)
          case Exhausted => InputExhausted(query)
  }

  /** Typing the number of a listed result downloads that result. */
  lemma TypedNumberDownloads(query: string, search: SearchEngine, videos: seq<Video>, k: nat, rest: seq<string>)
    requires !IsYoutubeUrl(query) && search(query, MaxResults) == Some(videos)
    requires 1 <= k <= |videos| && |NatToString(k)| <= MaxStrDigits
    ensures RouteQuery(query, search, [NatToString(k)] + rest) == Chosen(query, videos[k - 1])
    ensures DownloadUrl(RouteQuery(query, search, [NatToString(k)] + rest)) == Some(videos[k - 1].url)
  {
    NumeralChoice(videos, k, rest);
  }

  /** A direct link never consults the search engine or the prompt. */
  lemma DirectLinkSkipsSearch(query: string, search1: SearchEngine, search2: SearchEngine,
                              lines1: seq<string>, lines2: seq<string>)
    requires IsYoutubeUrl(query)
    ensures RouteQuery(query, search1, lines1) == RouteQuery(query, search2, lines2) == Direct(query)
  {
  }

  /** The exit status: every way a run ends without a download goes through
      `sys.exit(1)`, either directly or through the `except Exception`
      handler; a download ends the run normally. */
  function ExitStatus(r: Route): (code: nat)
    ensures code <= 1
    ensures code == 1 <==> !(r.Direct? || r.Chosen?)
  {
    match r
    case Direct(_) => 0
    case Chosen(_, _) => 0
    case _ => 1
  }

  /** The URL handed to the downloader, if any. */
  function DownloadUrl(r: Route): (url: Option<string>)
    ensures url.Some? <==> r.Direct? || r.Chosen?
    ensures r.Direct? ==> url == Some(r.url)
    ensures r.Chosen? ==> url == Some(r.video.url)
  {
    match r
    case Direct(u) => Some(u)
    case Chosen(_, v) => Some(v.url)
    case _ => None
  }

  /** `{"key": "FFmpegExtractAudio", "preferredcodec": ..., "preferredquality": ...}`. */
  datatype Postprocessor = FFmpegExtractAudio(preferredCodec: string, preferredQuality: string)

  /** The downloader's option dictionary; `None` is a key that is not set. */
  datatype YdlOptions = YdlOptions(
    outtmpl: string,
    format: string,
    postprocessor: Option<Postprocessor>,
    mergeOutputFormat: Option<string>,
    quiet: Option<bool>,
    restrictFilenames: Option<bool>)

  const BestAudio := "bestaudio/best"
  const AudioQuality := "192"
  const TitleTemplate := "%(title)s.%(ext)s"
}
