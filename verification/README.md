# yt-dlx: a Dafny model of its decisions

yt-dlx is a set of small tools that search for videos and download one
using an external download library. There are two command-line tools,
`main.py` and `yt_dlx_backend.py`, and a terminal UI, `yt_dlx_tui.py`.
Most of the code hands work to that library. This project models the
sequential, pure decisions around those calls:

- file names and paths: `sanitize_filename`, `auto_number`, and the
  template and final-path choice of `download_video`. These sit on models
  of CPython's `posixpath.splitext`, `join` and `dirname`.
- run configuration in both tools: resolving the format from `-o`, the
  default and bare values of `-a`, adding " audio" to searches,
  recognising a direct link, and building the downloader's option
  dictionary.
- the numbered selection prompt, `select_video`.
- the terminal UI's debounce of the search box and its Markdown listing
  of results.

External effects become parameters:

- the search engine is a function from a query and a result limit to
  either a `seq<Video>` or `None`, where the search raises. Both
  command-line tools call it with their default `max_results=5`;
- the typed answers are a finite `seq<string>`;
- `os.path.exists` is a finite set of existing paths;
- the title the downloader reports is an `Option<string>`;
- clock readings are integer milliseconds carried by events.

Three exceptions end a run through the `except Exception` handler with
status 1, and each is a route of its own:
- a failing search is `SearchFailed`;
- running out of input, where `input()` raises, is `InputExhausted`;
- a digit line longer than CPython's 4300-digit limit, where `int()`
  raises, is `ChoiceRejected`.

Files: `wrappers.dfy` (Option), `strings.dfy` (the `str` methods used),
`posix_path.dfy`, `file_names.dfy`, `cli.dfy` (what both command-line tools
share), `backend_cli.dfy`, `main_cli.dfy`, `tui_debounce.dfy`,
`tui_markdown.dfy`.

The code has no generation counter, result cursor or download dispatcher.
The terminal UI drops a stale search in two ways. Each edit cancels the
pending debounce task, and `@work(exclusive=True)` cancels a search worker
that is still running when a new one starts. Only the first is modelled;
the worker's cancellation is listed under "Left out".

## Model

| member | source | states |
|---|---|---|
| Strings.Strip | yt_dlx_backend.py:163 | `str.strip()`: the result is one contiguous piece of the input with only whitespace before and after it; it has no whitespace at either end and is empty exactly when the input is all whitespace |
| Strings.StripIsSubsequence | yt_dlx_backend.py:83 | stripping only deletes characters |
| Strings.ParseNatToString | yt_dlx_backend.py:73 | `int(str(n)) == n`: parsing a number's decimal spelling gives the number back |
| Strings.ParseDecimal | yt_dlx_backend.py:73 | `int(s)` over ASCII digits: a leading zero does not change the value |
| Strings.Contains | yt_dlx_backend.py:172 | `pat in s` holds exactly when `pat` occurs at some position of `s` |
| Strings.LStripChar | yt_dlx_backend.py:168 | `s.lstrip(c)`: a suffix of `s`, with only copies of `c` removed in front, that does not itself start with `c` |
| Strings.ToLower | yt_dlx_backend.py:168 | `s.lower()`: the same length, each character lower-cased (ASCII letters only) |
| Strings.JoinWithShape | yt_dlx_tui.py:82 | `sep.join(parts)` starts with the first part and ends with the last |
| Strings.JoinWithLength | yt_dlx_tui.py:82 | `sep.join(parts)` is as long as all parts plus one separator between each two |
| Strings.ContainsAppend | yt_dlx_backend.py:172-176 | appending text that starts with a character absent from a longer pattern cannot create an occurrence of the pattern |
| PosixPath.SplitExt | yt_dlx_backend.py:90 | `splitext`: root + ext is the path; ext is empty or starts with its only dot and holds no separator |
| PosixPath.SplitExtOfAddedExtension | yt_dlx_backend.py:168 | `splitext(stem + "." + e)` gives back `(stem, "." + e)` when `e` has no dot or separator and the stem's last component is not all dots |
| PosixPath.Join | yt_dlx_backend.py:110 | `join(a, b)`: an absolute `b` wins and an empty `a` yields `b`. Otherwise the result starts with `a` and ends with `b`, with one "/" between them exactly when `a` does not already end in "/", and nothing between them otherwise |
| PosixPath.JoinInDirectory | yt_dlx_backend.py:148-151 | joining a non-empty, separator-free name onto `d` names an entry directly inside `d` |
| PosixPath.DirName | yt_dlx_backend.py:149 | `dirname`: a prefix of the path. It is empty when there is no separator. Otherwise it is the path up to and including the last separator, minus a run of trailing separators, but never shortened to empty. It ends in a separator only when it is all separators, and then it reaches the last separator |
| FileNames.DropForbidden | yt_dlx_backend.py:83 | the regex deletion removes all 12 listed characters and keeps every other character with its count, in order |
| FileNames.SanitizeFilename | yt_dlx_backend.py:82-83 | the result is the name with the 12 deleted characters (angle brackets, colon, double quote, both slashes, pipe, question mark, asterisk, newline, carriage return, tab) removed and then its edge whitespace trimmed: a contiguous piece of the forbidden-free name with only whitespace around it and none at its own ends; it is a subsequence of the name |
| FileNames.SanitizeIdempotent | yt_dlx_backend.py:82-83 | sanitising twice is the same as sanitising once |
| FileNames.Numbered | yt_dlx_backend.py:94 | the candidate `f"{base} ({k}){ext}"` starts with the base, ends with the extension, and is at least four characters longer than both together |
| FileNames.NumberedInjective | yt_dlx_backend.py:94 | different counters give different `base (k)ext` candidates |
| FileNames.CounterBound | yt_dlx_backend.py:91-95 | if the path and its first `n` candidates all exist, then `n` is less than the number of existing paths, so the loop ends |
| FileNames.FreeCounter | yt_dlx_backend.py:91-95 | the counter reached is the first free one from the start; all earlier candidates exist; it never exceeds the number of existing paths |
| FileNames.AutoNumberCounter | yt_dlx_backend.py:89-96 | the counter is 0 exactly when the path itself is free, and is at most the number of existing paths |
| FileNames.AutoNumber | yt_dlx_backend.py:89-96 | `auto_number`: returns the path if it is free; otherwise returns `base (k)ext` for the smallest k ≥ 1 whose candidate is free, with every earlier candidate existing; the result never exists |
| FileNames.AutoNumberLoop | yt_dlx_backend.py:89-96 | the `while os.path.exists` loop ends, returns a free path, and agrees with `AutoNumber` |
| FileNames.AutoNumberInDirectory | yt_dlx_backend.py:94 | numbering edits only the last path component, so a path directly inside a directory stays there |
| Cli.IsYoutubeUrl | main.py:125-130 | a query is a direct link exactly when "youtube.com/watch" or "youtu.be/" occurs at some position in it |
| Cli.AppendAudio | yt_dlx_backend.py:172-173 | " audio" is appended only when asked for and the query is not a link; this never changes whether the query counts as a link |
| Cli.SelectVideo | yt_dlx_backend.py:64-76 | answers the first line that is all digits, within `int()`'s 4300-digit limit, and numbers an item from 1 to the list length, and returns that item (1-based). A digit line over the limit before any valid line aborts the prompt. Every line before the deciding one is skipped; no pick when no line decides |
| Cli.NumeralChoice | main.py:71-79 | typing `k` is accepted exactly when 1 ≤ k ≤ len(videos) and `str(k)` is within the digit limit, and then picks `videos[k-1]`; `0` and out-of-range numbers are skipped |
| Cli.RouteQuery | main.py:129-145 | a link is downloaded directly and unchanged. Otherwise the query is searched with limit 5: a failed search, no results, an exhausted prompt and an aborted prompt each give their own route, and `Chosen` holds exactly the video the typed lines select from the results |
| Cli.TypedNumberDownloads | main.py:135-145 | when the search returns results and the user types the number `k` of one of them (within the digit limit), that result's URL is downloaded |
| Cli.DirectLinkSkipsSearch | main.py:130-133 | for a link, neither the search engine nor the typed lines affect the outcome |
| Cli.ExitStatus | main.py:138-152 | status 1 exactly when the run ends without a download: no results, a failed search, or an exhausted or aborted prompt |
| BackendCli.ParseArgs | yt_dlx_backend.py:27-39 | `-f` defaults to mp4 and must be a valid codec; `-o` defaults to the downloads directory; a given `-f` or `-o` is kept |
| BackendCli.OutputExtension | yt_dlx_backend.py:168 | `splitext(o)[1].lstrip(".").lower()`: empty without an extension; otherwise the extension's characters after its single dot, lower-cased. It has no dot, separator or upper-case letter |
| BackendCli.ResolveFormat | yt_dlx_backend.py:167-170 | a valid codec named by the output's extension overrides `-f`; otherwise `-f` stands; a valid `-f` always resolves to a valid codec |
| BackendCli.ExtensionSelectsFormat | yt_dlx_backend.py:168-170 | an output `stem.EXT` whose lower-cased `EXT` is a codec selects that codec whatever `-f` says |
| BackendCli.NoExtensionKeepsFormat | yt_dlx_backend.py:168-170 | an output without an extension keeps `-f` |
| BackendCli.Run | yt_dlx_backend.py:161-188 | a link goes straight to download, unmodified. Otherwise the searched query gets " audio" exactly when `-a` is set, and the route is the search-and-select outcome for that query. Every download uses the stripped output and a valid resolved format |
| BackendCli.IsDirectoryTarget | yt_dlx_backend.py:105 | an output is a directory exactly when `splitext` leaves it whole; such an output names no format |
| BackendCli.OutputTemplate | yt_dlx_backend.py:105-113 | an output without an extension is a directory and the title template lies directly inside it; otherwise the template is the output path itself |
| BackendCli.DownloadOptions | yt_dlx_backend.py:115-140 | audio formats get "bestaudio/best" and an FFmpegExtractAudio step with that codec at "192"; other formats get a video+audio selector and are merged into that format |
| BackendCli.OptionsWriteRequestedFormat | yt_dlx_backend.py:115-140 | for every valid codec the options write exactly that format; extraction happens exactly for mp3, m4a and opus |
| BackendCli.TargetDirectory | yt_dlx_backend.py:149 | the reported directory is a leading part of the output: the output itself for a directory target, otherwise its `dirname`, which is strictly shorter |
| BackendCli.SavedStem | yt_dlx_backend.py:147 | the stem is the title (or "video" without one) with the 12 deleted characters removed and its edge whitespace trimmed; it is clean, and a subsequence of the title |
| BackendCli.DefaultNameIsClean | yt_dlx_backend.py:147 | sanitising the fallback title "video" leaves it unchanged |
| BackendCli.SavedName | yt_dlx_backend.py:147-150 | the saved name is the sanitised title (the forbidden-free title with its edge whitespace trimmed), then "." and the format; it is "video.FORMAT" without a title, and it has no separator when the format has none |
| BackendCli.EmptyStemName | yt_dlx_backend.py:147-150 | an empty title gives the saved name ".FORMAT" |
| BackendCli.DotNameNumbersAfterFormat | yt_dlx_backend.py:89-96 | when `dir/.FORMAT` is taken, `splitext` finds no extension in it, so the counter goes after the format and the numbered path ends in ")" |
| BackendCli.FinalPath | yt_dlx_backend.py:146-154 | the reported path is `auto_number` of `join(dir, name.fmt)`: that path when it is free, otherwise its first free numbered candidate. It is never an existing path, and it lies directly inside the output directory, or inside the output's parent for a file target |
| BackendCli.DownloadVideo | yt_dlx_backend.py:102-155 | for a valid format, the options are the option dictionary built from the job's output and format, and they write that format. The final path is the one `FinalPath` chooses: free and in the target directory |
| MainCli.ParseArgs | main.py:23-34 | `-f` defaults to "bestvideo+bestaudio/best" and `-o` to the downloads directory |
| MainCli.AudioCodec | main.py:35-42 | no `-a` means no codec; a bare `-a` means "mp3"; `-a CODEC` means that codec |
| MainCli.AudioFlagWantsAudio | main.py:122-125 | the codec is truthy, and audio is wanted, exactly for a bare `-a` or `-a CODEC` with a non-empty codec |
| MainCli.Run | main.py:117-145 | a link goes straight to download, unmodified. Otherwise " audio" is appended exactly when the codec is truthy, and the route is the search-and-select outcome for that query. Every download carries the user's format, output and codec |
| MainCli.NoAudioFlagKeepsQuery | main.py:122-126 | without `-a` the searched query is the stripped query and no extraction is requested |
| MainCli.DownloadOptions | main.py:85-107 | the template is the title template inside the output folder; without a codec the user's format is kept and there is no postprocessor; with one, the format is "bestaudio/best" with FFmpegExtractAudio at "192" |
| MainCli.AudioOverridesFormat | main.py:95-107 | with an audio codec the user's `-f` has no effect on the options |
| TuiDebounce.Initial | yt_dlx_tui.py:30-33 | no pending task and last-input time 0 |
| TuiDebounce.OnInputChanged | yt_dlx_tui.py:44-51 | an edit sets the last-input time to now and leaves exactly one pending task, a new one carrying the new text |
| TuiDebounce.OnWake | yt_dlx_tui.py:53-64 | only the live pending task acts; it acts only when now − last input ≥ 400 ms; blank text clears the results; other text requests a search for the unstripped text with limit 7 |
| TuiDebounce.EditSupersedesPending | yt_dlx_tui.py:44-64 | after an edit, an earlier task's wake-up does nothing; the new task clears or searches once the quiet period has passed, and does nothing before |
| TuiDebounce.AfterTracks | yt_dlx_tui.py:44-58 | after any event sequence, the last-input time is the time of the last edit, and a pending task carries that edit's text |
| TuiDebounce.SearchIsForLastEdit | yt_dlx_tui.py:56-60 | every search is for the text of the most recent edit and happens at least 400 ms after it |
| TuiDebounce.BurstCoalesces | yt_dlx_tui.py:47-58 | in a sequence whose times never go backwards, an edit followed by another within 400 ms is never searched; later searches come after the second edit |
| TuiDebounce.ThreeQuickEdits | yt_dlx_tui.py:44-60 | edits "j", "jo", "joh" 50 ms apart: the first two timers do nothing, and only "joh" is searched |
| TuiMarkdown.MarkdownLines | yt_dlx_tui.py:76-81 | 3n lines in result order: `## [i] title` (0-based), the URL, and `---\n` |
| TuiMarkdown.MakeWordMarkdown | yt_dlx_tui.py:73-82 | no results give ""; otherwise the text opens with the first result's heading `## [0] title` and closes with the rule |
| TuiMarkdown.MarkdownOfNothing | yt_dlx_tui.py:75-82 | no results give the empty string |
| TuiMarkdown.MarkdownAppend | yt_dlx_tui.py:76-82 | adding a result adds, after a newline, its entry numbered by its position |
| TuiMarkdown.CollectLines | yt_dlx_tui.py:75-81 | the `enumerate` loop collects exactly those 3n lines |

## Left out

- The download library itself (`extract_info`, `download`) and the body of `youtube_search`: these are network calls into foreign code. Search is a function parameter, and the downloader's reported title is a parameter.
- `print`, `input`, `argparse` parsing, `sys.exit` and the rich traceback: these are I/O. Parsed arguments are records, typed lines are a sequence, and exits are route values with `ExitStatus`.
- The `KeyboardInterrupt` handler (exit 0), and an exception inside a download (printed, exit 1): these are I/O-driven. A run that reaches a download counts as status 0.
- What the search engine returns for a given limit: it is a parameter, so the model does not promise at most 5 results.
- Cli.SelectVideo: follows CPython 3.11 and later, and the security releases of 3.7–3.10, where `int()` refuses more than 4300 digits. Older interpreters have no limit and would accept such a line.
- `os.path.expanduser`, `os.makedirs` and the real `os.path.exists`: these touch the file system. Paths are taken as already expanded, and the existing paths are a finite set.
- Textual composition, CSS, widget updates, the `@work(exclusive=True)` worker (including its cancellation of a search still running when a new one starts) and asyncio scheduling: these are UI and concurrency. Only the sequential debounce decisions are modelled. The search effect stands for calling the worker with the query and limit 7.
- Wall-clock seconds as floats: time is integer milliseconds, and 0.4 s is 400 ms.
- `str.isdigit` and `int` over non-ASCII digits, and `str.lower` over non-ASCII letters: both are ASCII only here. `isspace` uses Python's full whitespace list.
- Whether the printed final path is where the library actually wrote the file: `restrictfilenames` is applied inside the library, and a file target is written under its own name.
- test_result.py: it only makes a live network call.
- BackendCli.FinalPath: the claim that the path lies in the target directory assumes a format without `/`. Every valid codec satisfies this.
- BackendCli.FinalPath: it does not promise that the path ends in ".FORMAT". A title that sanitises to nothing gives the name ".FORMAT", and when that is taken the counter goes after it (`EmptyStemName`, `DotNameNumbersAfterFormat`).
