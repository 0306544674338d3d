/** The general command-line tool (`YouTubeFetcher` in the main script):
    `-f` is a downloader format string, `-o` a folder, and `-a [CODEC]`
    both adds " audio" to searches and converts the download to audio. */
module MainCli {

  import opened Wrappers
  import opened Strings
  import opened PosixPath
  import opened Cli

  const DefaultFormat := "bestvideo+bestaudio/best"
  const DefaultAudioCodec := "mp3"

  /** `-a` absent, given bare, or given with a codec. */
  datatype AudioFlag = NoAudio | BareAudio | AudioWith(codec: string)

  /** Parsed command line: query, `-f`, `-o` (already user-expanded), `-a`. */
  datatype Args = Args(query: string, format: string, output: string, audio: AudioFlag)

  /** The argument parser's defaults for `-f` and `-o`. */
  function ParseArgs(query: string, format: Option<string>, output: Option<string>,
                     audio: AudioFlag, downloadsDir: string): (r: Args)
    ensures format.None? ==> r.format == DefaultFormat
    ensures format.Some? ==> r.format == format.value
    ensures output.None? ==> r.output == downloadsDir
    ensures output.Some? ==> r.output == output.value
  {
    Args(query, format.GetOr(DefaultFormat), output.GetOr(downloadsDir), audio)
  }

  /** `args.audio`: `None` without `-a`, "mp3" for a bare `-a`. */
  function AudioCodec(flag: AudioFlag): (c: Option<string>)
    ensures c.None? <==> flag.NoAudio?
    ensures flag.BareAudio? ==> c == Some(DefaultAudioCodec)
    ensures flag.AudioWith? ==> c == Some(flag.codec)
  {
    match flag
    case NoAudio => None
    case BareAudio => Some(DefaultAudioCodec)
    case AudioWith(c) => Some(c)
  }

  /** Python truthiness of the codec: set and not the empty string. */
  predicate WantsAudio(codec: Option<string>) {
    codec.Some? && codec.value != ""
  }

  /** Audio is wanted for a bare `-a` and for `-a CODEC` with a non-empty
      codec, and never without `-a`. */
  lemma AudioFlagWantsAudio(flag: AudioFlag)
    ensures WantsAudio(AudioCodec(flag)) <==> flag.BareAudio? || (flag.AudioWith? && flag.codec != "")
  {
  }

  /** One download: URL, `-f` format, output folder and audio codec. */
  datatype Job = Job(url: string, format: string, output: string, audioCodec: Option<string>)

  datatype Outcome = Outcome(route: Route, job: Option<Job>)

  /** `main`: strips the query, adds " audio" to a searched query when an
      audio codec is set, then routes the query. */
  function Run(args: Args, search: SearchEngine, lines: seq<string>): (r: Outcome)
    ensures IsYoutubeUrl(Strip(args.query)) ==> r.route == Direct(Strip(args.query))
    ensures !IsYoutubeUrl(Strip(args.query)) ==>
              && !r.route.Direct?
              && r.route.query == (if WantsAudio(AudioCodec(args.audio)) then Strip(args.query) + " audio"
                                   else Strip(args.query))
              && r.route == RouteQuery(r.route.query, search, lines)
    ensures r.job.Some? <==> DownloadUrl(r.route).Some?
    ensures r.job.Some? ==>
              r.job.value == Job(DownloadUrl(r.route).value, args.format, args.output, AudioCodec(args.audio))
  {
    var query := Strip(args.query);
    var codec := AudioCodec(args.audio);
    var route := RouteQuery(AppendAudio(query, WantsAudio(codec)), search, lines);
    var job := match DownloadUrl(route)
      case Some(url) => Some(Job(url, args.format, args.output, codec))
      case None => None;
    Outcome(route, job)
  }

  /** Without `-a` the query reaches the search engine as typed (stripped). */
  lemma NoAudioFlagKeepsQuery(args: Args, search: SearchEngine, lines: seq<string>)
    requires args.audio.NoAudio?
    ensures var r := Run(args, search, lines);
            r.route.Direct? || r.route.query == Strip(args.query)
    ensures var r := Run(args, search, lines);
            r.job.Some? ==> r.job.value.audioCodec.None?
  {
  }

  /** The option dictionary `download_video` hands to the downloader: the
      title template inside the output folder, the user's format, and with
      an audio codec the best audio stream converted to that codec. */
  function DownloadOptions(output: string, format: string, codec: Option<string>): (o: YdlOptions)
    ensures o.outtmpl == JoinPrefix(output) + TitleTemplate && InDirectory(o.outtmpl, output)
    ensures o.quiet.None? && o.restrictFilenames.None? && o.mergeOutputFormat.None?
    ensures !WantsAudio(codec) ==> o.format == format && o.postprocessor.None?
    ensures WantsAudio(codec) ==>
              o.format == BestAudio && o.postprocessor == Some(FFmpegExtractAudio(codec.value, AudioQuality))
  {
    JoinInDirectory(output, TitleTemplate);
    var base := YdlOptions(Join(output, TitleTemplate), format, None, None, None, None);
    if WantsAudio(codec) then
      base.(format := BestAudio, postprocessor := Some(FFmpegExtractAudio(codec.value, AudioQuality)))
    else base
  }

  /** With an audio codec the user's `-f` has no effect on the options. */
  lemma AudioOverridesFormat(output: string, format1: string, format2: string, codec: Option<string>)
    requires WantsAudio(codec)
    ensures DownloadOptions(output, format1, codec) == DownloadOptions(output, format2, codec)
  {
  }

}
