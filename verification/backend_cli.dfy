/** The download backend (`YouTubeFetcher` in the backend script): format
    resolution from the output extension, query routing, the downloader's
    options, the output template and the final path it reports. */
module BackendCli {

  import opened Wrappers
  import opened Strings
  import opened PosixPath
  import opened FileNames
  import opened Cli

  const DefaultCodec := "mp4"
  const ValidCodecs: set<string> := {"mp3", "mp4", "m4a", "opus", "webm"}
  /** The formats that are downloaded as audio and converted. */
  const AudioCodecs: set<string> := {"mp3", "m4a", "opus"}

  /** Parsed command line: query, `-f`, `-o` (already user-expanded), `-a`. */
  datatype Args = Args(query: string, format: string, output: string, audio: bool)

  /** The argument parser's defaults: `-f` falls back to mp4 and `-o` to the
      downloads directory; any other `-f` is refused. */
  function ParseArgs(query: string, format: Option<string>, output: Option<string>,
                     audio: bool, downloadsDir: string): (r: Option<Args>)
    ensures r.Some? <==> format.None? || format.value in ValidCodecs
    ensures r.Some? ==> r.value.format in ValidCodecs && r.value.query == query && r.value.audio == audio
    ensures r.Some? && format.None? ==> r.value.format == DefaultCodec
    ensures r.Some? && output.None? ==> r.value.output == downloadsDir
    ensures r.Some? && format.Some? ==> r.value.format == format.value
    ensures r.Some? && output.Some? ==> r.value.output == output.value
  {
    var f := format.GetOr(DefaultCodec);
    if f in ValidCodecs then Some(Args(query, f, output.GetOr(downloadsDir), audio)) else None
  }

  /** The extension of `-o`, without its dot, lower-cased: `lstrip(".")`
      removes exactly the one dot that starts an extension. */
  function OutputExtension(output: string): (e: string)
    ensures var ext := SplitExt(output).1;
            && (ext == [] ==> e == [])
            && (ext != [] ==> |e| == |ext| - 1 && forall k :: 0 <= k < |e| ==> e[k] == LowerChar(ext[k + 1]))
    ensures forall k :: 0 <= k < |e| ==> e[k] != '.' && e[k] != '/' && !('A' <= e[k] <= 'Z')
  {
    ExtensionWord(SplitExt(output).1)
  }

  /** `ext.lstrip(".").lower()` for an extension `splitext` returns. */
  function ExtensionWord(ext: string): (e: string)
    requires ext == [] || ext[0] == '.'
    requires forall k :: 0 < k < |ext| ==> ext[k] != '.'
    requires forall k :: 0 <= k < |ext| ==> ext[k] != '/'
    ensures ext == [] ==> e == []
    ensures ext != [] ==> |e| == |ext| - 1 && forall k :: 0 <= k < |e| ==> e[k] == LowerChar(ext[k + 1])
    ensures forall k :: 0 <= k < |e| ==> e[k] != '.' && e[k] != '/' && !('A' <= e[k] <= 'Z')
  {
    var bare := LStripChar(ext, '.');
    StripOneDot(ext, bare);
    LowerExtension(ext, bare, ToLower(bare));
    ToLower(bare)
  }

  /** An extension is one dot and a dot-free rest, so stripping its leading
      dots removes that one dot only. */
  lemma StripOneDot(ext: string, bare: string)
    requires ext == [] || ext[0] == '.'
    requires forall k :: 0 < k < |ext| ==> ext[k] != '.'
    requires |bare| <= |ext| && bare == ext[|ext| - |bare|..]
    requires forall k :: 0 <= k < |ext| - |bare| ==> ext[k] == '.'
    requires |bare| > 0 ==> bare[0] != '.'
    ensures ext == [] ==> bare == []
    ensures ext != [] ==> bare == ext[1..]
  {
    // Brings position 1 into view, where a second leading dot would clash.
    assert DotAt(ext, 1) || !DotAt(ext, 1);
    assert ext != [] ==> |bare| < |ext|;
  }

  /** `s` has a dot at position `k`. */
  predicate DotAt(s: string, k: int) {
    0 <= k < |s| && s[k] == '.'
  }

  /** Lower-casing the characters after an extension's dot yields no dot,
      no separator and no upper-case letter. */
  lemma LowerExtension(ext: string, bare: string, e: string)
    requires ext == [] ==> bare == []
    requires ext != [] ==> bare == ext[1..]
    requires forall k :: 0 < k < |ext| ==> ext[k] != '.'
    requires forall k :: 0 <= k < |ext| ==> ext[k] != '/'
    requires |e| == |bare| && forall k :: 0 <= k < |bare| ==> e[k] == LowerChar(bare[k])
    ensures ext == [] ==> e == []
    ensures ext != [] ==> |e| == |ext| - 1 && forall k :: 0 <= k < |e| ==> e[k] == LowerChar(ext[k + 1])
    ensures forall k :: 0 <= k < |e| ==> e[k] != '.' && e[k] != '/' && !('A' <= e[k] <= 'Z')
  {
    forall k | 0 <= k < |e| ensures e[k] == LowerChar(ext[k + 1]) && e[k] != '.' && e[k] != '/' && !('A' <= e[k] <= 'Z') {
      assert bare[k] == ext[k + 1];
    }
  }

  /** The format actually used: a codec named by the output's extension
      overrides `-f`. */
  function ResolveFormat(output: string, format: string): (r: string)
    ensures OutputExtension(output) in ValidCodecs ==> r == OutputExtension(output)
    ensures OutputExtension(output) !in ValidCodecs ==> r == format
    ensures format in ValidCodecs ==> r in ValidCodecs
  {
    var ext := OutputExtension(output);
    if ext in ValidCodecs then ext else format
  }

  /** An output such as `song.MP3` selects mp3 whatever `-f` says. */
  lemma ExtensionSelectsFormat(stem: string, e: string, format: string)
    requires forall k :: 0 <= k < |e| ==> e[k] != '.' && e[k] != '/'
    requires HasNonDot(stem, RFind(stem, '/') + 1, |stem|)
    requires ToLower(e) in ValidCodecs
    ensures ResolveFormat(stem + "." + e, format) == ToLower(e)
  {
    SplitExtOfAddedExtension(stem, e);
    DropLeadingDot(e);
    assert OutputExtension(stem + "." + e) == ToLower(e);
  }

  lemma DropLeadingDot(e: string)
    requires |e| == 0 || e[0] != '.'
    ensures LStripChar("." + e, '.') == e
  {
    assert ("." + e)[1..] == e;
  }

  /** An output without an extension leaves `-f` in force. */
  lemma NoExtensionKeepsFormat(output: string, format: string)
    requires SplitExt(output).1 == []
    ensures ResolveFormat(output, format) == format
  {
    assert OutputExtension(output) == [];
  }

  /** One download: URL, resolved format and output path. */
  datatype Job = Job(url: string, format: string, output: string)

  datatype Outcome = Outcome(route: Route, job: Option<Job>)

  /** `main`: strips the query and the output, resolves the format, adds
      " audio" to a searched query when `-a` is set, then routes the query. */
  function Run(args: Args, search: SearchEngine, lines: seq<string>): (r: Outcome)
    requires args.format in ValidCodecs
    ensures IsYoutubeUrl(Strip(args.query)) ==> r.route == Direct(Strip(args.query))
    ensures !IsYoutubeUrl(Strip(args.query)) ==>
              && !r.route.Direct?
              && r.route.query == (if args.audio then Strip(args.query) + " audio" else Strip(args.query))
              && r.route == RouteQuery(r.route.query, search, lines)
    ensures r.job.Some? <==> DownloadUrl(r.route).Some?
    ensures r.job.Some? ==>
              && r.job.value.url == DownloadUrl(r.route).value
              && r.job.value.format == ResolveFormat(Strip(args.output), args.format)
              && r.job.value.format in ValidCodecs
              && r.job.value.output == Strip(args.output)
  {
    var query := Strip(args.query);
    var output := Strip(args.output);
    var format := ResolveFormat(output, args.format);
    var route := RouteQuery(AppendAudio(query, args.audio), search, lines);
    var job := match DownloadUrl(route)
      case Some(url) => Some(Job(url, format, output))
      case None => None;
    Outcome(route, job)
  }

  /** An output without an extension is a directory: `splitext` leaves it
      whole, and it names no format. */
  predicate IsDirectoryTarget(output: string): (b: bool)
    ensures b <==> SplitExt(output).0 == output
    ensures b ==> OutputExtension(output) == []
  {
    SplitExt(output).1 == []
  }

  /** `outtmpl`: the title template inside a directory target, or the
      output path itself. */
  function OutputTemplate(output: string): (t: string)
    ensures IsDirectoryTarget(output) ==> t == JoinPrefix(output) + TitleTemplate && InDirectory(t, output)
    ensures !IsDirectoryTarget(output) ==> t == output
  {
    JoinInDirectory(output, TitleTemplate);
    if IsDirectoryTarget(output) then Join(output, TitleTemplate) else output
  }

  /** The option dictionary `download_video` hands to the downloader. */
  function DownloadOptions(output: string, format: string): (o: YdlOptions)
    ensures o.outtmpl == OutputTemplate(output)
    ensures o.quiet == Some(false) && o.restrictFilenames == Some(true)
    ensures format in AudioCodecs ==>
              && o.format == BestAudio
              && o.postprocessor == Some(FFmpegExtractAudio(format, AudioQuality))
              && o.mergeOutputFormat == None
    ensures format !in AudioCodecs ==>
              && o.postprocessor == None
              && o.mergeOutputFormat == Some(format)
              && o.format == (if format == "webm" then "bestvideo+bestaudio/best"
                              else "bestvideo[ext=" + format + "]+bestaudio/best")
  {
    var base := YdlOptions(OutputTemplate(output), "", None, None, Some(false), Some(true));
    if format in AudioCodecs then
      base.(format := BestAudio, postprocessor := Some(FFmpegExtractAudio(format, AudioQuality)))
    else
      base.(format := if format != "webm" then "bestvideo[ext=" + format + "]+bestaudio/best"
                      else "bestvideo+bestaudio/best",
            mergeOutputFormat := Some(format))
  }

  /** The container or codec the downloader ends up writing. */
  function WrittenFormat(o: YdlOptions): Option<string> {
    match o.postprocessor
    case Some(pp) => Some(pp.preferredCodec)
    case None => o.mergeOutputFormat
  }

  /** For every accepted format the downloader is told to write exactly that
      format, and it extracts audio exactly for the audio codecs. */
  lemma OptionsWriteRequestedFormat(output: string, format: string)
    requires format in ValidCodecs
    ensures WrittenFormat(DownloadOptions(output, format)) == Some(format)
    ensures format in AudioCodecs <==> DownloadOptions(output, format).postprocessor.Some?
  {
  }

  /** The directory the final file is reported in: a directory target
      itself, or the `dirname` of a file target, which is a strictly shorter
      leading part of it. */
  function TargetDirectory(output: string): (d: string)
    ensures |d| <= |output| && d == output[..|d|]
    ensures IsDirectoryTarget(output) ==> d == output
    ensures !IsDirectoryTarget(output) ==> d == DirName(output) && |d| < |output|
  {
    if IsDirectoryTarget(output) then output else DirName(output)
  }

  /** `sanitize_filename(info.get("title", "video"))`: the title with its
      forbidden characters deleted and its ends trimmed. */
  function SavedStem(title: Option<string>): (stem: string)
    ensures IsCleanName(stem)
    ensures IsSubsequence(stem, title.GetOr(DefaultTitle))
    ensures exists i :: StrippedAt(DropForbidden(title.GetOr(DefaultTitle)), stem, i)
    ensures title.None? ==> stem == DefaultTitle
  {
    DefaultNameIsClean();
    SanitizeFilename(title.GetOr(DefaultTitle))
  }

  /** `f"{sanitize_filename(title)}.{fmt}"`, with "video" for a missing
      title: a clean stem taken from the title, a dot and the format. */
  function SavedName(format: string, title: Option<string>): (name: string)
    ensures |name| > |format|
    ensures name[|name| - |format| - 1..] == "." + format
    ensures var stem := name[..|name| - |format| - 1];
            && IsCleanName(stem)
            && IsSubsequence(stem, title.GetOr(DefaultTitle))
            && exists i :: StrippedAt(DropForbidden(title.GetOr(DefaultTitle)), stem, i)
    ensures title.None? ==> name == DefaultTitle + "." + format
    ensures NoSlash(format) ==> NoSlash(name)
  {
    var stem := SavedStem(title);
    DottedName(stem, format);
    stem + "." + format
  }

  /** A clean stem, a dot and the format: the stem is recovered from the
      front of the name, and the name has no separator when the format has
      none. */
  lemma DottedName(stem: string, format: string)
    requires IsCleanName(stem)
    ensures var name := stem + "." + format;
            && |name| > |format|
            && name[|name| - |format| - 1..] == "." + format
            && name[..|name| - |format| - 1] == stem
    ensures NoSlash(format) ==> NoSlash(stem + "." + format)
  {
    var name := stem + "." + format;
    assert name[..|stem|] == stem && name[|stem|..] == "." + format;
    if NoSlash(format) {
      assert NoSlash(stem);
      NoSlashConcat(stem, ".");
      NoSlashConcat(stem + ".", format);
    }
  }

  /** The title used when the downloader reports none. */
  const DefaultTitle := "video"

  /** The fallback title survives sanitising unchanged. */
  lemma DefaultNameIsClean()
    ensures SanitizeFilename(DefaultTitle) == DefaultTitle
  {
    var v := DefaultTitle;
    assert forall k :: 0 <= k < |v| ==> v[k] in "video";
    assert forall k :: 0 <= k < |v| ==> !IsForbidden(v[k]);
    assert IsCleanName(v);
    SanitizeKeepsClean(v);
  }

  /** The final path `download_video` reports: the saved name inside the
      target directory, numbered when that path is taken. It is never an
      existing path, and it lies directly inside the target directory. */
  function FinalPath(output: string, format: string, title: Option<string>, existing: set<string>): (p: string)
    ensures p !in existing
    ensures p == AutoNumber(Join(TargetDirectory(output), SavedName(format, title)), existing)
    ensures Join(TargetDirectory(output), SavedName(format, title)) !in existing ==>
              p == Join(TargetDirectory(output), SavedName(format, title))
    ensures NoSlash(format) ==> InDirectory(p, TargetDirectory(output))
  {
    var dir := TargetDirectory(output);
    var name := SavedName(format, title);
    var p := AutoNumber(Join(dir, name), existing);
    assert NoSlash(format) ==> InDirectory(p, dir) by {
      if NoSlash(format) {
        JoinInDirectory(dir, name);
        AutoNumberInDirectory(Join(dir, name), dir, existing);
      }
    }
    p
  }

  /** A saved name of just `.FORMAT` (see `EmptyStemName`) is, for
      `splitext`, a name without an extension: when it is taken inside
      `dir`, the counter goes after the format and the final path ends in
      ")" instead of ".FORMAT". */
  lemma DotNameNumbersAfterFormat(dir: string, format: string, existing: set<string>)
    requires forall k :: 0 <= k < |format| ==> format[k] != '.' && format[k] != '/'
    requires Join(dir, "." + format) in existing
    ensures var p := Join(dir, "." + format);
            var r := AutoNumber(p, existing);
            && p == JoinPrefix(dir) + ("." + format)
            && |r| > |p| && r[..|p|] == p && r[|r| - 1] == ')'
  {
    NoSlashInExtension(format);
    JoinInDirectory(dir, "." + format);
    NumberedAfterDotName(JoinPrefix(dir), format, existing);
  }

  /** Numbering a taken `PREFIX.FORMAT` (a last component of one dot and a
      word) appends the counter after the whole name. */
  lemma NumberedAfterDotName(prefix: string, format: string, existing: set<string>)
    requires prefix == [] || prefix[|prefix| - 1] == '/'
    requires forall k :: 0 <= k < |format| ==> format[k] != '.' && format[k] != '/'
    requires prefix + ("." + format) in existing
    ensures var p := prefix + ("." + format);
            var r := AutoNumber(p, existing);
            && |r| > |p| && r[..|p|] == p && r[|r| - 1] == ')'
  {
    var p := prefix + ("." + format);
    DotNameHasNoExtension(prefix, format);
    var n := AutoNumberCounter(p, existing);
    assert AutoNumber(p, existing) == p + (" (" + NatToString(n) + ")");
  }

  /** A title that sanitises to nothing leaves only the dot and the format. */
  lemma EmptyStemName(format: string, title: string)
    requires |title| == 0
    ensures SavedName(format, Some(title)) == "." + format
  {
    var name := SavedName(format, Some(title));
    var m := |name| - |format| - 1;
    assert IsSubsequence(name[..m], title);
    assert m == 0;
    assert name == name[m..];
  }

  /** A last component made of one dot and a dot-free word has no
      extension. */
  lemma DotNameHasNoExtension(prefix: string, format: string)
    requires prefix == [] || prefix[|prefix| - 1] == '/'
    requires forall k :: 0 <= k < |format| ==> format[k] != '.' && format[k] != '/'
    ensures SplitExt(prefix + ("." + format)) == (prefix + ("." + format), [])
  {
    var p := prefix + ("." + format);
    NoSlashInExtension(format);
    assert p == prefix + "." + format;
    RFindOfExtension(prefix, "." + format, '/');
    LastDotStartsExtension(prefix, format);
    assert RFind(p, '/') == |prefix| - 1;
  }

  /** Everything `download_video` decides for one job. */
  datatype Download = Download(options: YdlOptions, finalPath: string)

  function DownloadVideo(job: Job, title: Option<string>, existing: set<string>): (d: Download)
    requires job.format in ValidCodecs
    ensures d.options == DownloadOptions(job.output, job.format)
    ensures d.finalPath == FinalPath(job.output, job.format, title, existing)
    ensures d.finalPath !in existing
    ensures InDirectory(d.finalPath, TargetDirectory(job.output))
    ensures WrittenFormat(d.options) == Some(job.format)
  {
    assert NoSlash(job.format);
    OptionsWriteRequestedFormat(job.output, job.format);
    Download(DownloadOptions(job.output, job.format), FinalPath(job.output, job.format, title, existing))
  }
}
