/** `make_word_markdown` of the terminal UI: three lines per result, a
    numbered heading, the URL and a rule, joined with newlines. */
module TuiMarkdown {

  import opened Strings
  import opened Cli

  const Rule := "---\n"

  /** `f"## [{i}] {title}"`, numbered from 0. */
  function Heading(i: nat, v: Video): string {
    "## [" + NatToString(i) + "] " + v.title
  }

  /** The lines `make_word_markdown` collects: for result `i`, its heading,
      its URL and a rule. */
  function MarkdownLines(results: seq<Video>): (lines: seq<string>)
    ensures |lines| == 3 * |results|
    ensures forall i :: 0 <= i < |results| ==>
              && lines[3 * i] == Heading(i, results[i])
              && lines[3 * i + 1] == results[i].url
              && lines[3 * i + 2] == Rule
    decreases |results|
  {
    if |results| == 0 then []
    else
      var n := |results| - 1;
      MarkdownLines(results[..n]) + [Heading(n, results[n]), results[n].url, Rule]
  }

  /** `make_word_markdown(results)`: empty for no results, otherwise it
      opens with the first result's heading and closes with a rule. */
  function MakeWordMarkdown(results: seq<Video>): (md: string)
    ensures |results| == 0 ==> md == ""
    ensures |results| > 0 ==>
              var h := Heading(0, results[0]);
              |h| <= |md| && md[..|h|] == h && md[|md| - |Rule|..] == Rule
  {
    JoinWithShape("\n", MarkdownLines(results));
    JoinWith("\n", MarkdownLines(results))
  }

  /** The text one result contributes. */
  function Entry(i: nat, v: Video): string {
    Heading(i, v) + "\n" + v.url + "\n" + Rule
  }

  lemma MarkdownOfNothing()
    ensures MakeWordMarkdown([]) == ""
  {
  }

  /** Appending a result appends its entry after a newline, numbered with
      its position. */
  lemma MarkdownAppend(results: seq<Video>, v: Video)
    ensures |results| == 0 ==> MakeWordMarkdown(results + [v]) == Entry(0, v)
    ensures |results| > 0 ==>
              MakeWordMarkdown(results + [v]) == MakeWordMarkdown(results) + "\n" + Entry(|results|, v)
  {
    var n := |results|;
    var all := results + [v];
    assert all[..n] == results;
    var ls := MarkdownLines(results);
    var h := Heading(n, v);
    var ls1 := ls + [h];
    var ls2 := ls1 + [v.url];
    var ls3 := ls2 + [Rule];
    assert MarkdownLines(all) == ls3;
    assert ls3[..|ls3| - 1] == ls2 && ls2[..|ls2| - 1] == ls1 && ls1[..|ls1| - 1] == ls;
    assert JoinWith("\n", ls3) == JoinWith("\n", ls1) + "\n" + v.url + "\n" + Rule;
    if n == 0 {
      assert JoinWith("\n", ls1) == h;
    } else {
      var prev := JoinWith("\n", ls);
      assert JoinWith("\n", ls1) == prev + "\n" + h;
      assert prev + "\n" + h + "\n" + v.url + "\n" + Rule == prev + "\n" + Entry(n, v);
    }
  }

  /** The `for i, res in enumerate(results)` loop that collects the lines. */
  method CollectLines(results: seq<Video>) returns (lines: seq<string>)
    ensures |lines| == 3 * |results|
    ensures forall i :: 0 <= i < |results| ==>
              && lines[3 * i] == Heading(i, results[i])
              && lines[3 * i + 1] == results[i].url
              && lines[3 * i + 2] == Rule
  {
    lines := [];
    var i := 0;
    while i < |results|
      invariant 0 <= i <= |results|
      invariant lines == MarkdownLines(results[..i])
    {
      assert results[..i + 1][..i] == results[..i];
      lines := lines + [Heading(i, results[i]), results[i].url, Rule];
      i := i + 1;
    }
    assert results[..i] == results;
  }
}
