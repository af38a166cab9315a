# github_repo.py — a verified model of its core

`github_repo.py` turns a GitHub repository's tree into a wordlist: one
`/<path>` line per file or directory, for content-discovery tools. This
project models the script's logic in Dafny and proves what it promises:

- `RepoParser` (`repo_parser.dfy`): `parse_github_url`. The URL pattern
  `github\.com/([\w\-_]+)/([\w\-_]+)` is matched by hand: a leftmost search
  with greedy segment runs. If nothing matches, the input is split at its
  first `/`. If it has no `/`, the parser fails with `InvalidFormat`.
- `ContentsWalk` (`contents_walk.dfy`): `get_github_dir_contents`. The
  remote repository is a finite tree of contents responses. `Walk` and
  `WalkItems` are the specification. `GetDirContents` is the recursive
  method with the source's `for` loop, and it is proved equal to `Walk`.
  A 403 raises `RateLimited`. Any other non-200 status raises
  `ApiError(status, url)`. An error at any depth fails the whole walk. The
  walk stops at the first failure, so the first listing in pre-order that
  does not answer 200 decides the error: a 403 somewhere in the tree gives
  `RateLimited` only when no other non-200 listing comes before it.
- `DirFilter` (`dir_filter.dfy`): the `--dirs-only` comprehension with its
  `is_dir` check. The per-path request is an oracle from a path to a response.
  When that oracle answers as the walked tree says, the filter as written
  keeps nothing (see "## Findings"). `Filter` takes the test as a parameter:
  `IsDir` is the test as written, `IsListing` the corrected one.
- `WordlistWriter` (`wordlist_writer.dfy`): the loop that writes one line per
  path, and `Wordlist`, the run after parsing (walk, optional filter, lines).
- `Results` (`results.dfy`): the `Result` and `Option` datatypes.

Some edge cases are proved as behaviour of the script:
- a `.` ends a repository name taken from a URL (`github.com/o/r.git` gives `r`);
- `"/x"` gives an empty owner;
- `"a/b/c"` gives the repository name `"b/c"`.

## Model

| member | source | states |
|---|---|---|
| RepoParser.RunEnd | github_repo.py:8 | a greedy `[\w\-_]+` group takes every segment character from its start up to the first non-segment character or the end |
| RepoParser.MatchAtIff | github_repo.py:8-9 | a match at position i is found exactly when the text there is `github.com/`, a segment, `/`, and a segment not followed by another segment character |
| RepoParser.LeftmostMatch | github_repo.py:9 | the search returns the first position with a match, and there is no match before it; if it returns none, there is no match anywhere |
| RepoParser.FirstSlash | github_repo.py:13 | the split point is a `/` with no `/` before it |
| RepoParser.Parse | github_repo.py:7-16 | the parser fails exactly on the inputs that contain no `/` |
| RepoParser.ParseLeftmost | github_repo.py:8-11 | when URL matches exist, the result is the pair captured at the leftmost one |
| RepoParser.ParseUrlSegments | github_repo.py:8-11 | on the URL branch, owner and name are non-empty runs of word characters or `-` |
| RepoParser.ParseUrlForm | github_repo.py:8-11 | text before `github.com/<owner>/<name>` that does not contain `github.com/` is ignored, and so is trailing text that does not continue the name |
| RepoParser.ParseSplit | github_repo.py:12-13 | with no URL match and a `/`, owner is the text before the first `/` and name is everything after it: owner has no `/` and `owner + "/" + name` is the input |
| RepoParser.ParseInvalid | github_repo.py:14-15 | an input with no `/` raises InvalidFormat and yields no pair |
| RepoParser.DotTruncatesName | github_repo.py:8-11 | `https://github.com/o/r.git` parses as owner `o`, name `r` |
| RepoParser.EmptyOwner | github_repo.py:12-13 | `/x` parses as an empty owner and name `x` |
| RepoParser.NameKeepsSlash | github_repo.py:12-13 | `a/b/c` parses as owner `a` and name `b/c` |
| ContentsWalk.GetDirContents | github_repo.py:18-35 | the recursive loop that appends each path and extends with each directory's walk returns exactly the specified walk, errors included |
| ContentsWalk.WalkCorrect | github_repo.py:24-35 | the walk succeeds iff every requested listing answers 200, and then it returns the pre-order listing of the tree |
| ContentsWalk.WalkItemsCorrect | github_repo.py:30-34 | the item loop succeeds iff every directory item's walk succeeds, and then yields each path followed by its subtree, in listing order |
| ContentsWalk.Walk | github_repo.py:18-35 | a walk that fails raises RateLimited or an ApiError whose status is neither 200 nor 403 |
| ContentsWalk.WalkItems | github_repo.py:30-34 | an error raised inside the item loop is one of those two listing errors |
| ContentsWalk.Descend | github_repo.py:32-34 | only an item of type `dir` is walked, so only such an item can fail, and it fails with a listing error |
| ContentsWalk.WalkItemsFirstError | github_repo.py:30-34 | a failed item loop raises the error of the first item whose walk fails, and every earlier item was walked successfully |
| ContentsWalk.WalkErrorSource | github_repo.py:19-34 | a failed walk raises the error of a listing it requested (its ancestors answered 200 and every earlier sibling's walk succeeded) that did not answer 200, so the first such listing in pre-order: RateLimited for a 403, otherwise an ApiError with that listing's status and URL |
| ContentsWalk.FirstFailureOnly | github_repo.py:30-34 | with root directories `x` and `y` both answering 403, `x`'s listing is requested and `y`'s never is |
| ContentsWalk.PreorderLength | github_repo.py:29-35 | the listing has exactly one entry per item of the tree |
| ContentsWalk.PreorderItemsLength | github_repo.py:30-34 | the listing of a run of siblings has one entry per item in and below them |
| ContentsWalk.PreorderItemsAppend | github_repo.py:30-34 | siblings are listed in the order the API returns them |
| ContentsWalk.PreorderAt | github_repo.py:30-34 | each item's path comes after its earlier siblings' subtrees, right before its own subtree, and before its later siblings |
| ContentsWalk.SmallTree | github_repo.py:29-35 | root `a.txt` and `b` holding `b/c.txt` walks to `a.txt`, `b`, `b/c.txt` |
| ContentsWalk.DeepRateLimit | github_repo.py:24-25 | root `a.txt` (a file) then directory `b` whose listing answers 403 fails the whole walk with RateLimited |
| DirFilter.IsDir | github_repo.py:53-60 | a path counts as a directory only on status 200, and never when its answer is a JSON list |
| DirFilter.Filter | github_repo.py:53-61 | the comprehension keeps a subsequence of the paths in order: a path is kept iff its answer passes the test (as written `IsDir`: 200 with a single object of type `dir`), and every occurrence of it is kept |
| DirFilter.FilterAppend | github_repo.py:61 | filtering a concatenation filters each part |
| DirFilter.FilterIdempotent | github_repo.py:61 | filtering twice with the same answers equals filtering once |
| DirFilter.TreeAnswer | github_repo.py:54-58 | the answer for an item's own path: a directory answers with its listing (a list on 200), any other item with a single object of its own type |
| DirFilter.DirsOnlyKeepsNothing | github_repo.py:50-61 | when each path is answered as the walked tree says, filtering the walk keeps nothing |
| DirFilter.DirsOnlyKeepsNothingItems | github_repo.py:53-61 | the same for a run of siblings |
| DirFilter.NoDirectoryKept | github_repo.py:53-61 | with `a.txt` answering a file object and `b` answering a listing, neither is kept |
| DirFilter.FilterListingsPreorder | github_repo.py:50-61 | with the corrected test, answers from the tree and every listing answering 200, filtering the walk keeps exactly the directories, in pre-order |
| DirFilter.FilterListingsPreorderItems | github_repo.py:53-61 | the same for a run of siblings |
| DirFilter.DirectoryKeptByListing | github_repo.py:53-61 | with the corrected test, of `a.txt` and the directory `b`, only `b` is kept |
| WordlistWriter.WriteWordlist | github_repo.py:63-66 | one line `/` + path + newline per path, in input order (exactly `Lines(paths)`, the lines the round trip reads back), and the reported count is the number of lines |
| WordlistWriter.LinesAt | github_repo.py:64-65 | line k of the output is the line for path k |
| WordlistWriter.ReadLine | github_repo.py:65 | a written line of a path without newlines reads back as exactly that path |
| WordlistWriter.ReadBack | github_repo.py:63-65 | when no path contains a newline, splitting the file at newlines and dropping the leading `/` gives the paths back |
| WordlistWriter.Wordlist | github_repo.py:49-65 | the run writes a file iff the walk succeeds, and otherwise raises the walk's error; every line starts with `/` and ends with a newline, there are no more lines than walked paths, and as many without `--dirs-only` |
| WordlistWriter.WordlistCorrect | github_repo.py:49-65 | a file is written iff every listing answered 200. It then holds one line per item in pre-order; with `--dirs-only` it holds the lines of exactly the walked paths whose own answer passes `is_dir`, in pre-order, and with answers that match the tree it is empty |
| WordlistWriter.CorrectedWordlist | github_repo.py:49-65 | the run with the corrected filter fails exactly as the original does, and without `--dirs-only` writes the same lines |
| WordlistWriter.CorrectedWordlistCorrect | github_repo.py:49-65 | with the corrected filter, `--dirs-only` writes a file iff every listing answered 200, holding the lines of exactly the walked paths whose own answer is a listing, in pre-order |
| WordlistWriter.CorrectedDirsOnly | github_repo.py:49-65 | with the corrected filter, `--dirs-only` on a tree whose listings all answered 200 writes one line per directory, in pre-order |
| WordlistWriter.WriteTwo | github_repo.py:63-66 | paths `a.txt` and `b` give exactly the lines `/a.txt` and `/b` and a count of 2 |

## Findings

| source | as written | input that shows it | evidently intended | confidence | as-written member | corrected member |
|---|---|---|---|---|---|---|
| github_repo.py:53-61 | `is_dir` requests the same contents URL the walk already listed and keeps a path only when the answer is a single object of type `dir`; the endpoint answers a directory's own path with a JSON list, so no directory passes | root listing with file `a.txt` and directory `b`, each path answered as the tree says (`b` answers 200 with a list): `--dirs-only` writes an empty file | keep the paths whose own answer is a listing, i.e. exactly the directories in pre-order | not executed | DirFilter.DirsOnlyKeepsNothing | DirFilter.FilterListingsPreorder |

## Left out

- The HTTP requests, the request headers and `response.json()`. The walk reads an abstract tree of responses instead, and the filter reads an oracle. The token only adds a header, so it is not a parameter.
- The URL a request goes to is kept only as the text carried by `ApiError`. The error messages are not modelled, only their kind, status and URL.
- A 200 listing whose body is not a list, or whose items lack `path` or `type`, is not modelled: a `Listing` always holds well-formed items.
- argparse, the `GITHUB_TOKEN` lookup, `print` and the `try`/`except` reporting (github_repo.py:37-48, 66-68). One note: the parse error at line 47 is raised outside the `try`, so it is not caught and printed like the walk's errors.
- Opening the output file and its UTF-8 encoding. The file is modelled as the sequence of lines written to it.
- Python's Unicode `\w` is approximated by ASCII letters, digits and `_`.
- How the remote service reacts to the token, such as rate limits, cannot be modelled.
- `Wordlist` keeps the filter as written, since it models lines 49-65 as they are; `CorrectedWordlist` is the same run with the corrected filter.
- `ReadWordlist` is not in the source. It stands for a consumer of the wordlist and serves as the writer's inverse.
