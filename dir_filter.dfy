/**
 * The `--dirs-only` filter: every path found by the walk is requested again
 * on its own, and kept only when that answer shows a single directory. A
 * non-200 answer is not an error here; it only drops the path.
 *
 * The per-path request is an oracle `query` from a path to the response of
 * the contents endpoint for it.
 */
module DirFilter {
  import opened Results
  import opened ContentsWalk

  /**
   * The decoded JSON body of a contents response: a list (the listing of a
   * directory), an object whose `type` field may be absent, or any other value.
   */
  datatype Body = List | Object(kind: Option<string>) | OtherJson

  /** A response of the contents endpoint for one path. */
  datatype Response = Response(status: int, body: Body)

  /** `is_dir`: status 200 and a single object whose `type` is "dir"; every other answer means "not a directory". */
  predicate IsDir(r: Response): (b: bool)
    ensures b ==> r.status == 200
    ensures r.body.List? ==> !b
  {
    r.status == 200 && r.body.Object? && r.body.kind == Some("dir")
  }

  /** `a` is `b` with some elements removed, the rest kept in order. */
  predicate IsSubsequence(a: seq<string>, b: seq<string>)
    decreases |b|
  {
    if a == [] then true
    else if b == [] then false
    else (a[0] == b[0] && IsSubsequence(a[1..], b[1..])) || IsSubsequence(a, b[1..])
  }

  /**
   * `[p for p in paths if test(p)]` where `test(p)` requests `p` and applies
   * `keep` to the answer: the paths whose own answer passes, in their
   * original order and with their original multiplicity. As written, `keep`
   * is `IsDir`.
   */
  function Filter(paths: seq<string>, query: string -> Response, keep: Response -> bool): (kept: seq<string>)
    ensures IsSubsequence(kept, paths) && |kept| <= |paths|
    ensures forall p :: multiset(kept)[p] == if keep(query(p)) then multiset(paths)[p] else 0
    ensures forall p :: p in kept <==> p in paths && keep(query(p))
  {
    if paths == [] then []
    else
      var rest := Filter(paths[1..], query, keep);
      assert paths == [paths[0]] + paths[1..];
      if keep(query(paths[0])) then
        assert ([paths[0]] + rest)[1..] == rest;
        [paths[0]] + rest
      else
        rest
  }

  /** Filtering a concatenation filters each part. */
  lemma {:induction false} FilterAppend(a: seq<string>, b: seq<string>, query: string -> Response, keep: Response -> bool)
    ensures Filter(a + b, query, keep) == Filter(a, query, keep) + Filter(b, query, keep)
  {
    if a == [] {
      assert a + b == b;
    } else {
      assert (a + b)[0] == a[0] && (a + b)[1..] == a[1..] + b;
      FilterAppend(a[1..], b, query, keep);
    }
  }

  /** Re-filtering the filtered list with the same answers changes nothing. */
  lemma {:induction false} FilterIdempotent(paths: seq<string>, query: string -> Response, keep: Response -> bool)
    ensures Filter(Filter(paths, query, keep), query, keep) == Filter(paths, query, keep)
  {
    if paths != [] {
      FilterIdempotent(paths[1..], query, keep);
      var rest := Filter(paths[1..], query, keep);
      if keep(query(paths[0])) {
        assert ([paths[0]] + rest)[0] == paths[0] && ([paths[0]] + rest)[1..] == rest;
      }
    }
  }

  // ---------------------------------------------------------------------------
  // The filter against the tree the walk saw

  /** The directories of the tree below `l`, in pre-order: what a filter on the walk's own type information would keep. */
  function DirPreorder(l: Listing): seq<string>
    decreases l
  {
    DirPreorderItems(l.items)
  }

  function DirPreorderItems(s: seq<Item>): seq<string>
    decreases s
  {
    if s == [] then []
    else if s[0].kind == "dir" then [s[0].path] + DirPreorder(s[0].sub) + DirPreorderItems(s[1..])
    else DirPreorderItems(s[1..])
  }

  /**
   * The answer the contents endpoint gives for an item's own path in the
   * tree the walk saw. A directory answers with its listing, which is a JSON
   * list when the status is 200 and an error object otherwise. Anything else
   * answers 200 with a single object whose `type` is the item's type.
   */
  function TreeAnswer(item: Item): (r: Response)
    ensures item.kind == "dir" ==> r.status == item.sub.status && (r.status == 200 <==> r.body.List?)
    ensures item.kind != "dir" ==> r.status == 200 && r.body == Object(Some(item.kind))
  {
    if item.kind != "dir" then Response(200, Object(Some(item.kind)))
    else if item.sub.status == 200 then Response(200, List)
    else Response(item.sub.status, Object(None))
  }

  /** Every path of the tree below `l` is answered as the tree says. */
  predicate AnswersFromTree(l: Listing, query: string -> Response)
    decreases l
  {
    forall k :: 0 <= k < |l.items| ==> ItemAnswersFromTree(l.items[k], query)
  }

  predicate ItemAnswersFromTree(item: Item, query: string -> Response)
    decreases item
  {
    query(item.path) == TreeAnswer(item)
    && (item.kind == "dir" ==> AnswersFromTree(item.sub, query))
  }

  /**
   * As written, `--dirs-only` keeps nothing: a directory's own path answers
   * with a list, not with an object of type "dir", and no other item answers
   * with type "dir".
   */
  lemma {:induction false} DirsOnlyKeepsNothing(l: Listing, query: string -> Response)
    requires AnswersFromTree(l, query)
    ensures Filter(Preorder(l), query, IsDir) == []
    decreases l
  {
    DirsOnlyKeepsNothingItems(l.items, query);
  }

  lemma {:induction false} DirsOnlyKeepsNothingItems(s: seq<Item>, query: string -> Response)
    requires forall k :: 0 <= k < |s| ==> ItemAnswersFromTree(s[k], query)
    ensures Filter(PreorderItems(s), query, IsDir) == []
    decreases s
  {
    if s != [] {
      var item := s[0];
      assert ItemAnswersFromTree(item, query);
      assert forall k :: 1 <= k < |s| ==> s[1..][k - 1] == s[k];
      DirsOnlyKeepsNothingItems(s[1..], query);
      FilterAppend([item.path] + Below(item), PreorderItems(s[1..]), query, IsDir);
      FilterAppend([item.path], Below(item), query, IsDir);
      assert [item.path][1..] == [];
      if item.kind == "dir" {
        DirsOnlyKeepsNothing(item.sub, query);
      }
    }
  }

  /** A file `a.txt` and a directory `b` at the root, answered as the tree says: nothing is kept. */
  lemma NoDirectoryKept(query: string -> Response)
    requires query("a.txt") == Response(200, Object(Some("file")))
    requires query("b") == Response(200, List)
    ensures Filter(["a.txt", "b"], query, IsDir) == []
  {
    assert ["a.txt", "b"][1..] == ["b"] && ["b"][1..] == [];
  }

  // ---------------------------------------------------------------------------
  // The filter as evidently intended: a path is a directory when its own
  // answer is a listing.

  /** A directory's answer: status 200 with a JSON list. */
  predicate IsListing(r: Response) {
    r.status == 200 && r.body.List?
  }

  /**
   * With the corrected test, re-querying every walked path of a tree whose
   * listings all answered 200 keeps exactly its directories, in pre-order.
   */
  lemma {:induction false} FilterListingsPreorder(l: Listing, query: string -> Response)
    requires AllOk(l) && AnswersFromTree(l, query)
    ensures Filter(Preorder(l), query, IsListing) == DirPreorder(l)
    decreases l
  {
    FilterListingsPreorderItems(l.items, query);
  }

  lemma {:induction false} FilterListingsPreorderItems(s: seq<Item>, query: string -> Response)
    requires forall k :: 0 <= k < |s| ==> ItemOk(s[k]) && ItemAnswersFromTree(s[k], query)
    ensures Filter(PreorderItems(s), query, IsListing) == DirPreorderItems(s)
    decreases s
  {
    if s != [] {
      var item := s[0];
      assert ItemOk(item) && ItemAnswersFromTree(item, query);
      assert forall k :: 1 <= k < |s| ==> s[1..][k - 1] == s[k];
      FilterListingsPreorderItems(s[1..], query);
      FilterAppend([item.path] + Below(item), PreorderItems(s[1..]), query, IsListing);
      FilterAppend([item.path], Below(item), query, IsListing);
      assert [item.path][1..] == [];
      if item.kind == "dir" {
        FilterListingsPreorder(item.sub, query);
        assert Filter([item.path], query, IsListing) == [item.path];
      } else {
        assert Filter([item.path], query, IsListing) == [];
      }
    }
  }

  /** The same two items with the corrected test: `b` is kept. */
  lemma DirectoryKeptByListing(query: string -> Response)
    requires query("a.txt") == Response(200, Object(Some("file")))
    requires query("b") == Response(200, List)
    ensures Filter(["a.txt", "b"], query, IsListing) == ["b"]
  {
    assert ["a.txt", "b"][1..] == ["b"] && ["b"][1..] == [];
    assert Filter(["b"], query, IsListing) == ["b"] + [];
  }
}
