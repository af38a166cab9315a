/**
 * The tree walker: a pre-order depth-first listing of every path in a
 * repository, obtained by querying the contents endpoint once for the root
 * and once for every directory.
 *
 * The remote repository is modelled as a finite tree of responses: the
 * `Listing` for a directory is what the contents endpoint answers for it,
 * and every listed `Item` carries the `Listing` a request for its own path
 * would get. Termination of the walk is structural descent in this tree.
 */
module ContentsWalk {
  import opened Results

  /** The contents endpoint's answer for one directory: its status and, when it is 200, the items in API order. */
  datatype Listing = Listing(status: int, items: seq<Item>)

  /**
   * One listed item: its repository-relative `path`, its `type` field, and
   * the answer a listing request for `path` would get (consulted only when
   * the type is "dir").
   */
  datatype Item = Item(path: string, kind: string, sub: Listing)

  /** Errors the walker raises: 403 is reported as rate limiting, any other non-200 with its status and URL. */
  datatype WalkError = RateLimited | ApiError(status: int, url: string)

  /** The contents endpoint URL queried for `path`. */
  function ContentsUrl(owner: string, repo: string, path: string): string {
    "https://api.github.com/repos/" + owner + "/" + repo + "/contents/" + path
  }

  /** Puts `prefix` in front of a successful result; a failure passes through unchanged. */
  function Prepend(prefix: seq<string>, r: Result<seq<string>, WalkError>): Result<seq<string>, WalkError> {
    match r
    case Success(v) => Success(prefix + v)
    case Failure(e) => Failure(e)
  }

  lemma PrependNil(r: Result<seq<string>, WalkError>)
    ensures Prepend([], r) == r
  {
    if r.Success? {
      assert [] + r.value == r.value;
    }
  }

  lemma PrependTwice(a: seq<string>, b: seq<string>, r: Result<seq<string>, WalkError>)
    ensures Prepend(a, Prepend(b, r)) == Prepend(a + b, r)
  {
    if r.Success? {
      assert a + (b + r.value) == (a + b) + r.value;
    }
  }

  // ---------------------------------------------------------------------------
  // The walk, as a specification

  /** The error raised for a listing of `path` that answered `status` (not 200). */
  function ListingError(owner: string, repo: string, path: string, status: int): WalkError {
    if status == 403 then RateLimited else ApiError(status, ContentsUrl(owner, repo, path))
  }

  /** The errors a listing can raise: rate limiting, or an API error for a status other than 200 and 403. */
  predicate IsListingError(e: WalkError) {
    e == RateLimited || (e.ApiError? && e.status != 200 && e.status != 403)
  }

  /**
   * What `get_github_dir_contents(owner, repo, token, path)` returns when the
   * endpoint answers `l` for `path`; whatever fails, it fails with a listing error.
   */
  function Walk(owner: string, repo: string, path: string, l: Listing): (r: Result<seq<string>, WalkError>)
    ensures r.Failure? ==> IsListingError(r.error)
    decreases l
  {
    if l.status == 403 then Failure(RateLimited)
    else if l.status != 200 then Failure(ApiError(l.status, ContentsUrl(owner, repo, path)))
    else WalkItems(owner, repo, l.items)
  }

  /**
   * The loop over the listed items: each path, then (for a directory) its
   * whole walk, then the next sibling; an error of a nested walk is passed on.
   */
  function WalkItems(owner: string, repo: string, s: seq<Item>): (r: Result<seq<string>, WalkError>)
    ensures r.Failure? ==> IsListingError(r.error)
    decreases s
  {
    if s == [] then Success([])
    else
      match Descend(owner, repo, s[0])
      case Failure(e) => Failure(e)
      case Success(below) => Prepend([s[0].path] + below, WalkItems(owner, repo, s[1..]))
  }

  /** The recursive call made for one item: only items of type "dir" are descended into, and nothing else can fail. */
  function Descend(owner: string, repo: string, item: Item): (r: Result<seq<string>, WalkError>)
    ensures r.Failure? ==> item.kind == "dir" && IsListingError(r.error)
    decreases item
  {
    if item.kind == "dir" then Walk(owner, repo, item.path, item.sub) else Success([])
  }

  // ---------------------------------------------------------------------------
  // The walk, as the source runs it

  /**
   * `get_github_dir_contents`: builds `results` by appending each item's
   * path and extending it with the recursive result for directories; the
   * first error, at any depth, is raised and no partial list is returned.
   */
  method GetDirContents(owner: string, repo: string, path: string, l: Listing)
    returns (res: Result<seq<string>, WalkError>)
    ensures res == Walk(owner, repo, path, l)
    decreases l
  {
    if l.status == 403 {
      return Failure(RateLimited);
    }
    if l.status != 200 {
      return Failure(ApiError(l.status, ContentsUrl(owner, repo, path)));
    }
    var results: seq<string> := [];
    PrependNil(WalkItems(owner, repo, l.items));
    assert l.items[0..] == l.items;
    for i := 0 to |l.items|
      invariant WalkItems(owner, repo, l.items) == Prepend(results, WalkItems(owner, repo, l.items[i..]))
    {
      var item := l.items[i];
      ghost var rest := WalkItems(owner, repo, l.items[i + 1..]);
      assert l.items[i..][0] == item;
      assert l.items[i..][1..] == l.items[i + 1..];
      var below: Result<seq<string>, WalkError> := Success([]);
      if item.kind == "dir" {
        below := GetDirContents(owner, repo, item.path, item.sub);
      }
      assert below == Descend(owner, repo, item);
      if below.Failure? {
        return Failure(below.error);
      }
      assert WalkItems(owner, repo, l.items[i..]) == Prepend([item.path] + below.value, rest);
      PrependTwice(results, [item.path] + below.value, rest);
      assert results + ([item.path] + below.value) == results + [item.path] + below.value;
      results := results + [item.path];
      results := results + below.value;
    }
    assert l.items[|l.items|..] == [];
    assert results + [] == results;
    return Success(results);
  }

  // ---------------------------------------------------------------------------
  // A reference: the pre-order listing of the tree and the condition for success

  /** The paths of the tree below `l` in pre-order, regardless of statuses. */
  function Preorder(l: Listing): seq<string>
    decreases l
  {
    PreorderItems(l.items)
  }

  function PreorderItems(s: seq<Item>): seq<string>
    decreases s
  {
    if s == [] then [] else [s[0].path] + Below(s[0]) + PreorderItems(s[1..])
  }

  /** The paths strictly below an item: its subtree for a directory, nothing otherwise. */
  function Below(item: Item): seq<string>
    decreases item
  {
    if item.kind == "dir" then Preorder(item.sub) else []
  }

  /** Every listing the walk requests, the root's and every directory's, answers 200. */
  predicate AllOk(l: Listing)
    decreases l
  {
    l.status == 200 && forall k :: 0 <= k < |l.items| ==> ItemOk(l.items[k])
  }

  predicate ItemOk(item: Item)
    decreases item
  {
    item.kind == "dir" ==> AllOk(item.sub)
  }

  /** The number of items in the tree: each listed item once, plus the items under each directory. */
  function Count(l: Listing): nat
    decreases l
  {
    CountItems(l.items)
  }

  function CountItems(s: seq<Item>): nat
    decreases s
  {
    if s == [] then 0 else 1 + (if s[0].kind == "dir" then Count(s[0].sub) else 0) + CountItems(s[1..])
  }

  // ---------------------------------------------------------------------------
  // Properties of the walk

  /**
   * The walk succeeds exactly when every requested listing answers 200, and
   * then returns the pre-order listing of the tree.
   */
  lemma {:induction false} WalkCorrect(owner: string, repo: string, path: string, l: Listing)
    ensures Walk(owner, repo, path, l).Success? <==> AllOk(l)
    ensures Walk(owner, repo, path, l).Success? ==> Walk(owner, repo, path, l).value == Preorder(l)
    decreases l
  {
    if l.status == 200 {
      WalkItemsCorrect(owner, repo, l.items);
    }
  }

  lemma {:induction false} WalkItemsCorrect(owner: string, repo: string, s: seq<Item>)
    ensures WalkItems(owner, repo, s).Success? <==> forall k :: 0 <= k < |s| ==> ItemOk(s[k])
    ensures WalkItems(owner, repo, s).Success? ==> WalkItems(owner, repo, s).value == PreorderItems(s)
    decreases s
  {
    if s != [] {
      if s[0].kind == "dir" {
        WalkCorrect(owner, repo, s[0].path, s[0].sub);
      }
      WalkItemsCorrect(owner, repo, s[1..]);
      assert forall k :: 1 <= k < |s| ==> s[k] == s[1..][k - 1];
      if WalkItems(owner, repo, s).Success? {
        assert (([s[0].path] + Below(s[0])) + PreorderItems(s[1..])) == PreorderItems(s);
      }
    }
  }

  /**
   * The listing `m` answered for path `p` is requested by a walk that starts
   * at `path` with answer `l`: it is `l` itself, or it is requested by the
   * walk of a "dir" item of `l` when `l` answered 200 and the walks of all
   * earlier items of `l` succeeded (the loop stops at the first failure).
   */
  ghost predicate Reached(path: string, l: Listing, p: string, m: Listing)
    decreases l
  {
    (p == path && m == l)
    || (l.status == 200
        && exists k :: (0 <= k < |l.items| && l.items[k].kind == "dir"
                        && (forall j :: 0 <= j < k ==> ItemOk(l.items[j]))
                        && Reached(l.items[k].path, l.items[k].sub, p, m)))
  }

  /**
   * The item loop fails with the error of the first item whose descent fails;
   * every earlier item was walked successfully.
   */
  lemma {:induction false} WalkItemsFirstError(owner: string, repo: string, s: seq<Item>)
    requires WalkItems(owner, repo, s).Failure?
    ensures exists k :: (0 <= k < |s| && (forall j :: 0 <= j < k ==> Descend(owner, repo, s[j]).Success?)
                         && Descend(owner, repo, s[k]) == Failure(WalkItems(owner, repo, s).error))
    decreases s
  {
    if Descend(owner, repo, s[0]).Success? {
      WalkItemsFirstError(owner, repo, s[1..]);
      var k :| 0 <= k < |s[1..]| && (forall j :: 0 <= j < k ==> Descend(owner, repo, s[1..][j]).Success?)
        && Descend(owner, repo, s[1..][k]) == Failure(WalkItems(owner, repo, s[1..]).error);
      assert forall j :: 1 <= j < k + 1 ==> s[j] == s[1..][j - 1];
      assert Descend(owner, repo, s[k + 1]) == Failure(WalkItems(owner, repo, s).error);
    } else {
      assert Descend(owner, repo, s[0]) == Failure(WalkItems(owner, repo, s).error);
    }
  }

  /**
   * A failed walk raises exactly the error of some listing it requested that
   * did not answer 200: RateLimited for a 403, otherwise an ApiError carrying
   * that listing's status and URL. Since the walk stops at the first failure,
   * that is the first listing in pre-order that did not answer 200.
   */
  lemma {:induction false} WalkErrorSource(owner: string, repo: string, path: string, l: Listing)
    requires Walk(owner, repo, path, l).Failure?
    ensures exists p, m :: (Reached(path, l, p, m) && m.status != 200
                            && Walk(owner, repo, path, l).error == ListingError(owner, repo, p, m.status))
    decreases l
  {
    if l.status != 200 {
      assert Reached(path, l, path, l);
    } else {
      var s := l.items;
      WalkItemsFirstError(owner, repo, s);
      var k :| 0 <= k < |s| && (forall j :: 0 <= j < k ==> Descend(owner, repo, s[j]).Success?)
        && Descend(owner, repo, s[k]) == Failure(WalkItems(owner, repo, s).error);
      forall j | 0 <= j < k
        ensures ItemOk(s[j])
      {
        if s[j].kind == "dir" {
          WalkCorrect(owner, repo, s[j].path, s[j].sub);
        }
      }
      WalkErrorSource(owner, repo, s[k].path, s[k].sub);
      var p, m :| Reached(s[k].path, s[k].sub, p, m) && m.status != 200
        && Walk(owner, repo, s[k].path, s[k].sub).error == ListingError(owner, repo, p, m.status);
      assert Reached(path, l, p, m);
    }
  }

  /**
   * Two directories at the root whose listings both answer 403: the first is
   * requested, the second never is.
   */
  lemma FirstFailureOnly()
    ensures var denied := Listing(403, []);
      var root := Listing(200, [Item("x", "dir", denied), Item("y", "dir", denied)]);
      Reached("", root, "x", denied) && !Reached("", root, "y", denied)
  {
    var denied := Listing(403, []);
    var root := Listing(200, [Item("x", "dir", denied), Item("y", "dir", denied)]);
    assert Reached("x", denied, "x", denied);
    assert !ItemOk(root.items[0]);
    assert !Reached("x", denied, "y", denied);
  }

  /** The pre-order listing of the whole tree has one entry per item. */
  lemma {:induction false} PreorderLength(l: Listing)
    ensures |Preorder(l)| == Count(l)
    decreases l
  {
    PreorderItemsLength(l.items);
  }

  lemma {:induction false} PreorderItemsLength(s: seq<Item>)
    ensures |PreorderItems(s)| == CountItems(s)
    decreases s
  {
    if s != [] {
      if s[0].kind == "dir" {
        PreorderLength(s[0].sub);
      }
      PreorderItemsLength(s[1..]);
    }
  }

  /** Siblings are listed in the order the API returns them. */
  lemma {:induction false} PreorderItemsAppend(a: seq<Item>, b: seq<Item>)
    ensures PreorderItems(a + b) == PreorderItems(a) + PreorderItems(b)
  {
    if a != [] {
      assert (a + b)[1..] == a[1..] + b;
      PreorderItemsAppend(a[1..], b);
    } else {
      assert a + b == b;
    }
  }

  /**
   * The shape of a pre-order listing: whatever precedes item `k`, then its
   * own path, then its whole subtree, then the walk of its later siblings.
   */
  lemma {:induction false} PreorderAt(s: seq<Item>, k: nat)
    requires k < |s|
    ensures PreorderItems(s) == PreorderItems(s[..k]) + [s[k].path] + Below(s[k]) + PreorderItems(s[k + 1..])
  {
    var t := s[k..];
    assert s == s[..k] + t;
    PreorderItemsAppend(s[..k], t);
    assert t[0] == s[k] && t[1..] == s[k + 1..];
    assert PreorderItems(t) == [s[k].path] + Below(s[k]) + PreorderItems(s[k + 1..]);
  }

  /** Two files at the root and one below directory `b`: the listing is `a.txt`, `b`, `b/c.txt`. */
  lemma SmallTree()
    ensures var leaf := Listing(200, []);
      var b := Listing(200, [Item("b/c.txt", "file", leaf)]);
      var root := Listing(200, [Item("a.txt", "file", leaf), Item("b", "dir", b)]);
      Walk("o", "r", "", root) == Success(["a.txt", "b", "b/c.txt"])
  {
    var leaf := Listing(200, []);
    var c := Item("b/c.txt", "file", leaf);
    var b := Listing(200, [c]);
    var a := Item("a.txt", "file", leaf);
    var d := Item("b", "dir", b);
    assert [c][1..] == [];
    assert Descend("o", "r", c) == Success([]);
    assert WalkItems("o", "r", []) == Success([]);
    assert ["b/c.txt"] + [] + [] == ["b/c.txt"];
    assert WalkItems("o", "r", [c]) == Success(["b/c.txt"]);
    assert Descend("o", "r", d) == Success(["b/c.txt"]);
    assert [a, d][1..] == [d] && [d][1..] == [];
    assert WalkItems("o", "r", [d]) == Success(["b"] + ["b/c.txt"] + []);
    assert ["b"] + ["b/c.txt"] + [] == ["b", "b/c.txt"];
    assert Descend("o", "r", a) == Success([]);
    assert ["a.txt"] + [] + ["b", "b/c.txt"] == ["a.txt", "b", "b/c.txt"];
  }

  /**
   * Root items `a.txt` (a file) and `b` (a directory whose listing answers
   * 403): the walk fails with the rate-limit error.
   */
  lemma DeepRateLimit()
    ensures var leaf := Listing(200, []);
      var root := Listing(200, [Item("a.txt", "file", leaf), Item("b", "dir", Listing(403, []))]);
      Walk("o", "r", "", root) == Failure(RateLimited)
  {
    var leaf := Listing(200, []);
    var a := Item("a.txt", "file", leaf);
    var d := Item("b", "dir", Listing(403, []));
    assert [a, d][1..] == [d];
    assert Descend("o", "r", d) == Failure(RateLimited);
    assert WalkItems("o", "r", [d]) == Failure(RateLimited);
    assert Descend("o", "r", a) == Success([]);
  }
}
