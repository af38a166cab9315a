/**
 * The writer and the run of the script after parsing: walk the repository,
 * optionally keep only directories, and write one line `/<path>` per path.
 * The output file is modelled as the sequence of lines written to it.
 */
module WordlistWriter {
  import opened Results
  import opened ContentsWalk
  import opened DirFilter

  /** The line written for one path. */
  function Line(path: string): string {
    "/" + path + "\n"
  }

  /** The lines for a list of paths, one per path, in order. */
  function Lines(paths: seq<string>): seq<string> {
    if paths == [] then [] else [Line(paths[0])] + Lines(paths[1..])
  }

  /**
   * The `for` loop writing the output file: one line per path, in input
   * order; `count` is the number of entries reported afterwards.
   */
  method WriteWordlist(paths: seq<string>) returns (lines: seq<string>, count: nat)
    ensures |lines| == |paths| && count == |lines|
    ensures forall k :: 0 <= k < |paths| ==> lines[k] == Line(paths[k])
    ensures lines == Lines(paths)
  {
    lines := [];
    for i := 0 to |paths|
      invariant |lines| == i
      invariant forall k :: 0 <= k < i ==> lines[k] == Line(paths[k])
    {
      lines := lines + [Line(paths[i])];
    }
    count := |paths|;
    LinesAt(paths);
  }

  lemma {:induction false} LinesAt(paths: seq<string>)
    ensures |Lines(paths)| == |paths|
    ensures forall k :: 0 <= k < |paths| ==> Lines(paths)[k] == Line(paths[k])
  {
    if paths != [] {
      LinesAt(paths[1..]);
      assert forall k :: 1 <= k < |paths| ==> paths[1..][k - 1] == paths[k];
    }
  }

  // ---------------------------------------------------------------------------
  // Reading the file back

  /** The contents of the output file: the lines one after the other. */
  function Text(lines: seq<string>): string {
    if lines == [] then [] else lines[0] + Text(lines[1..])
  }

  /** Where the first line of `text` ends: its first newline, or the end of the text. */
  function LineEnd(text: string): (k: nat)
    ensures k <= |text| && '\n' !in text[..k]
    ensures k < |text| ==> text[k] == '\n'
  {
    if text == [] || text[0] == '\n' then 0
    else
      var k := 1 + LineEnd(text[1..]);
      assert text[..k] == [text[0]] + text[1..][..k - 1];
      k
  }

  function StripSlash(line: string): string {
    if |line| > 0 && line[0] == '/' then line[1..] else line
  }

  /** A consumer of the wordlist: split the text at newlines and drop each line's leading `/`. */
  function ReadWordlist(text: string): seq<string>
    decreases |text|
  {
    if text == [] then []
    else
      var k := LineEnd(text);
      [StripSlash(text[..k])] + ReadWordlist(text[if k < |text| then k + 1 else k..])
  }

  lemma ReadLine(path: string, rest: string)
    requires '\n' !in path
    ensures ReadWordlist(Line(path) + rest) == [path] + ReadWordlist(rest)
  {
    var text := Line(path) + rest;
    var n := |path| + 1;
    assert text[..n] == "/" + path;
    assert text[n] == '\n';
    assert forall j :: 0 <= j < n ==> text[j] == text[..n][j];
    assert LineEnd(text) == n;
    assert StripSlash(text[..n]) == path;
    assert text[n + 1..] == rest;
  }

  /** Writing then reading gives back the paths, as long as no path contains a newline. */
  lemma {:induction false} ReadBack(paths: seq<string>)
    requires forall k :: 0 <= k < |paths| ==> '\n' !in paths[k]
    ensures ReadWordlist(Text(Lines(paths))) == paths
  {
    if paths != [] {
      var tail := Text(Lines(paths[1..]));
      assert Text(Lines(paths)) == Line(paths[0]) + tail;
      ReadLine(paths[0], tail);
      assert forall k :: 1 <= k < |paths| ==> paths[1..][k - 1] == paths[k];
      ReadBack(paths[1..]);
      assert [paths[0]] + paths[1..] == paths;
    }
  }

  // ---------------------------------------------------------------------------
  // The run after parsing

  /**
   * Lines 49-65 of the script: walk from the root, optionally filter to
   * directories, and produce the lines of the output file. An error of the
   * walk is raised before the file is opened, so nothing is written.
   */
  function Wordlist(owner: string, repo: string, root: Listing, dirsOnly: bool, query: string -> Response)
    : (r: Result<seq<string>, WalkError>)
    ensures r.Success? <==> Walk(owner, repo, "", root).Success?
    ensures r.Failure? ==> r.error == Walk(owner, repo, "", root).error
    ensures r.Success? ==> |r.value| <= |Walk(owner, repo, "", root).value|
    ensures r.Success? && !dirsOnly ==> |r.value| == |Walk(owner, repo, "", root).value|
    ensures r.Success? ==> forall k :: 0 <= k < |r.value| ==> |r.value[k]| >= 2 && r.value[k][0] == '/' && r.value[k][|r.value[k]| - 1] == '\n'
  {
    match Walk(owner, repo, "", root)
    case Failure(e) => Failure(e)
    case Success(paths) =>
      var written := if dirsOnly then Filter(paths, query, IsDir) else paths;
      LinesAt(written);
      Success(Lines(written))
  }

  /**
   * The run writes a file exactly when every listing answered 200; the file
   * then holds one line per item of the tree in pre-order, or, with
   * `--dirs-only`, one line per walked path whose own answer passes `IsDir`.
   * With per-path answers that match the tree, that `--dirs-only` file is empty.
   */
  lemma WordlistCorrect(owner: string, repo: string, root: Listing, dirsOnly: bool, query: string -> Response)
    ensures Wordlist(owner, repo, root, dirsOnly, query).Success? <==> AllOk(root)
    ensures Wordlist(owner, repo, root, dirsOnly, query).Success? && !dirsOnly ==>
      var lines := Wordlist(owner, repo, root, dirsOnly, query).value;
      lines == Lines(Preorder(root)) && |lines| == Count(root)
    ensures Wordlist(owner, repo, root, dirsOnly, query).Success? && dirsOnly ==>
      Wordlist(owner, repo, root, dirsOnly, query).value == Lines(Filter(Preorder(root), query, IsDir))
    ensures Wordlist(owner, repo, root, dirsOnly, query).Success? && dirsOnly && AnswersFromTree(root, query) ==>
      Wordlist(owner, repo, root, dirsOnly, query).value == []
  {
    WalkCorrect(owner, repo, "", root);
    PreorderLength(root);
    LinesAt(Preorder(root));
    if AnswersFromTree(root, query) {
      DirsOnlyKeepsNothing(root, query);
    }
  }

  /** The run with the directory test corrected to `IsListing`. */
  function CorrectedWordlist(owner: string, repo: string, root: Listing, dirsOnly: bool, query: string -> Response)
    : (r: Result<seq<string>, WalkError>)
    ensures r.Success? <==> Walk(owner, repo, "", root).Success?
    ensures r.Failure? ==> r.error == Walk(owner, repo, "", root).error
    ensures r.Success? && !dirsOnly ==> r == Wordlist(owner, repo, root, dirsOnly, query)
  {
    match Walk(owner, repo, "", root)
    case Failure(e) => Failure(e)
    case Success(paths) => Success(Lines(if dirsOnly then Filter(paths, query, IsListing) else paths))
  }

  /**
   * The corrected run writes a file exactly when every listing answered 200;
   * with `--dirs-only` it holds one line per walked path whose own answer is
   * a listing.
   */
  lemma CorrectedWordlistCorrect(owner: string, repo: string, root: Listing, query: string -> Response)
    ensures CorrectedWordlist(owner, repo, root, true, query).Success? <==> AllOk(root)
    ensures CorrectedWordlist(owner, repo, root, true, query).Success? ==>
      CorrectedWordlist(owner, repo, root, true, query).value == Lines(Filter(Preorder(root), query, IsListing))
  {
    WalkCorrect(owner, repo, "", root);
  }

  /**
   * With the corrected test, `--dirs-only` on a tree whose listings all
   * answered 200 writes one line per directory, in pre-order.
   */
  lemma CorrectedDirsOnly(owner: string, repo: string, root: Listing, query: string -> Response)
    requires AllOk(root) && AnswersFromTree(root, query)
    ensures CorrectedWordlist(owner, repo, root, true, query) == Success(Lines(DirPreorder(root)))
  {
    WalkCorrect(owner, repo, "", root);
    FilterListingsPreorder(root, query);
  }

  /** Two paths give exactly the lines `/a.txt` and `/b`, and a count of 2. */
  method WriteTwo() returns (lines: seq<string>, count: nat)
    ensures lines == ["/a.txt\n", "/b\n"] && count == 2
  {
    lines, count := WriteWordlist(["a.txt", "b"]);
    assert lines[0] == Line("a.txt") && lines[1] == Line("b");
    assert Line("a.txt") == "/a.txt\n" && Line("b") == "/b\n";
  }
}
