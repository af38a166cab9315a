/**
 * The repository-reference parser: turns the `--input` argument, either a URL
 * containing `github.com/<owner>/<repo>` or a plain `<owner>/<repo>`, into the
 * owner and repository names.
 *
 * The URL pattern `github\.com/([\w\-_]+)/([\w\-_]+)` is matched by hand: a
 * match may start at position i when the literal `github.com/` is there; each
 * group is a greedy run of segment characters, and since `/` is not a segment
 * character the greedy runs leave the regex engine nothing to backtrack to.
 */
module RepoParser {
  import opened Results

  /** Owner and repository name, as the parser returns them. */
  datatype RepoRef = RepoRef(owner: string, name: string)

  /** The only error the parser raises. */
  datatype ParseError = InvalidFormat

  /** The literal part of the URL pattern. */
  const Host: string := "github.com/"

  /**
   * The character class `[\w\-_]` of the URL pattern. `\w` is taken as the
   * ASCII letters, digits and underscore.
   */
  predicate IsSegChar(c: char) {
    ('a' <= c <= 'z') || ('A' <= c <= 'Z') || ('0' <= c <= '9') || c == '_' || c == '-'
  }

  /** What one group `([\w\-_]+)` can capture: a non-empty run of segment characters. */
  predicate IsSegment(s: string) {
    |s| > 0 && forall k :: 0 <= k < |s| ==> IsSegChar(s[k])
  }

  /**
   * Where a greedy `[\w\-_]+` started at position `j` stops: the first
   * non-segment character at or after `j`, or the end of `s` (`j` itself
   * when the group cannot match there).
   */
  function RunEnd(s: string, j: nat): (e: nat)
    requires j <= |s|
    decreases |s| - j
    ensures j <= e <= |s|
    ensures forall k :: j <= k < e ==> IsSegChar(s[k])
    ensures e < |s| ==> !IsSegChar(s[e])
  {
    if j == |s| || !IsSegChar(s[j]) then j else RunEnd(s, j + 1)
  }

  /** A run that stops at a non-segment character or at the end is the greedy one. */
  lemma RunEndIs(s: string, j: nat, e: nat)
    requires j <= e <= |s|
    requires forall k :: j <= k < e ==> IsSegChar(s[k])
    requires e < |s| ==> !IsSegChar(s[e])
    ensures RunEnd(s, j) == e
  {
  }

  /** The literal `github.com/` stands at position `i` of `s`. */
  predicate HostAt(s: string, i: nat) {
    i + |Host| <= |s| && s[i..i + |Host|] == Host
  }

  /** The two groups `([\w\-_]+)/([\w\-_]+)` matched at position `j`, if they match there. */
  function Captures(s: string, j: nat): Option<RepoRef>
    requires j <= |s|
  {
    var e1 := RunEnd(s, j);
    if j < e1 < |s| && s[e1] == '/' then
      var e2 := RunEnd(s, e1 + 1);
      if e1 + 1 < e2 then Some(RepoRef(s[j..e1], s[e1 + 1..e2])) else None
    else None
  }

  /** The match of the URL pattern that starts at position `i` of `s`, if there is one. */
  function MatchAt(s: string, i: nat): Option<RepoRef> {
    if HostAt(s, i) then Captures(s, i + |Host|) else None
  }

  /**
   * The declarative reading of the groups at `j`: the owner, then `/`, then
   * the name, both segments, and the name not followed by another segment
   * character.
   */
  ghost predicate CapturedAt(s: string, j: nat, r: RepoRef) {
    var k := j + |r.owner| + 1;
    var e := k + |r.name|;
    e <= |s|
    && s[j..k - 1] == r.owner && s[k - 1] == '/' && s[k..e] == r.name
    && IsSegment(r.owner) && IsSegment(r.name)
    && (e == |s| || !IsSegChar(s[e]))
  }

  /** The declarative reading of a match at `i`: `github.com/` there, then the two groups. */
  ghost predicate MatchesAt(s: string, i: nat, r: RepoRef) {
    HostAt(s, i) && CapturedAt(s, i + |Host|, r)
  }

  /** The characters of a greedy run form a segment. */
  lemma RunIsSegment(s: string, j: nat)
    requires j <= |s| && j < RunEnd(s, j)
    ensures IsSegment(s[j..RunEnd(s, j)])
  {
    var e := RunEnd(s, j);
    forall m | 0 <= m < e - j
      ensures IsSegChar(s[j..e][m])
    {
      assert s[j..e][m] == s[j + m];
    }
  }

  lemma CapturesSound(s: string, j: nat)
    requires j <= |s| && Captures(s, j).Some?
    ensures CapturedAt(s, j, Captures(s, j).value)
  {
    var e1 := RunEnd(s, j);
    RunIsSegment(s, j);
    RunIsSegment(s, e1 + 1);
  }

  lemma MatchAtSound(s: string, i: nat)
    requires MatchAt(s, i).Some?
    ensures MatchesAt(s, i, MatchAt(s, i).value)
  {
    CapturesSound(s, i + |Host|);
  }

  /** A segment standing at position `j` and not followed by a segment character is what the greedy run at `j` consumes. */
  lemma RunOver(s: string, j: nat, w: string)
    requires j + |w| <= |s| && s[j..j + |w|] == w
    requires forall k :: 0 <= k < |w| ==> IsSegChar(w[k])
    requires j + |w| < |s| ==> !IsSegChar(s[j + |w|])
    ensures RunEnd(s, j) == j + |w|
  {
    forall k | j <= k < j + |w|
      ensures IsSegChar(s[k])
    {
      assert s[k] == w[k - j];
    }
    RunEndIs(s, j, j + |w|);
  }

  lemma CapturesComplete(s: string, j: nat, r: RepoRef)
    requires j <= |s| && CapturedAt(s, j, r)
    ensures Captures(s, j) == Some(r)
  {
    RunOver(s, j, r.owner);
    RunOver(s, j + |r.owner| + 1, r.name);
  }

  lemma MatchAtComplete(s: string, i: nat, r: RepoRef)
    requires MatchesAt(s, i, r)
    ensures MatchAt(s, i) == Some(r)
  {
    CapturesComplete(s, i + |Host|, r);
  }

  /** `MatchAt` finds exactly the matches described by `MatchesAt`. */
  lemma MatchAtIff(s: string, i: nat, r: RepoRef)
    ensures MatchAt(s, i) == Some(r) <==> MatchesAt(s, i, r)
  {
    if MatchAt(s, i) == Some(r) {
      MatchAtSound(s, i);
    }
    if MatchesAt(s, i, r) {
      MatchAtComplete(s, i, r);
    }
  }

  /** What `re.search` does: the leftmost position at or after `from` where the pattern matches. */
  function LeftmostMatch(s: string, from: nat): (k: Option<nat>)
    decreases |s| - from
    ensures k.Some? ==> from <= k.value && MatchAt(s, k.value).Some?
    ensures k.Some? ==> forall j :: from <= j < k.value ==> MatchAt(s, j).None?
    ensures k.None? ==> forall j :: from <= j ==> MatchAt(s, j).None?
  {
    if from + |Host| > |s| then None
    else if MatchAt(s, from).Some? then Some(from)
    else LeftmostMatch(s, from + 1)
  }

  /** The index of the first `/` in `s`: where `split('/', 1)` cuts. */
  function FirstSlash(s: string): (k: nat)
    requires '/' in s
    ensures k < |s| && s[k] == '/' && '/' !in s[..k]
  {
    if s[0] == '/' then 0
    else
      var k := 1 + FirstSlash(s[1..]);
      assert s[..k] == [s[0]] + s[1..][..k - 1];
      k
  }

  /**
   * `parse_github_url`: the captures of the leftmost URL match; failing that,
   * the two halves of a split on the first `/`; failing that, InvalidFormat.
   * Every URL match contains a `/`, so the parser fails exactly on the inputs
   * without one.
   */
  function Parse(arg: string): (r: Result<RepoRef, ParseError>)
    ensures r.Failure? <==> '/' !in arg
  {
    match LeftmostMatch(arg, 0)
    case Some(i) =>
      MatchAtSound(arg, i);
      assert arg[i + |Host| - 1] == Host[|Host| - 1];
      Success(MatchAt(arg, i).value)
    case None =>
      if '/' in arg then
        var k := FirstSlash(arg);
        Success(RepoRef(arg[..k], arg[k + 1..]))
      else
        Failure(InvalidFormat)
  }

  /** URL branch: the result is the pair captured at the leftmost match. */
  lemma ParseLeftmost(s: string, i: nat, r: RepoRef)
    requires MatchesAt(s, i, r)
    requires forall j: nat, q :: j < i ==> !MatchesAt(s, j, q)
    ensures Parse(s) == Success(r)
  {
    MatchAtComplete(s, i, r);
    var m := LeftmostMatch(s, 0);
    assert m.Some?;
    if m.value < i {
      MatchAtSound(s, m.value);
      assert false;
    }
  }

  /** URL branch: both names are non-empty runs of segment characters, the repository name ending at the first non-segment character. */
  lemma ParseUrlSegments(s: string, i: nat, r: RepoRef)
    requires MatchesAt(s, i, r)
    ensures Parse(s).Success?
    ensures IsSegment(Parse(s).value.owner) && IsSegment(Parse(s).value.name)
  {
    MatchAtComplete(s, i, r);
    var m := LeftmostMatch(s, 0);
    MatchAtSound(s, m.value);
  }

  /** Fallback branch: owner is the text before the first `/`, name everything after it. */
  lemma ParseSplit(s: string)
    requires forall j: nat, q :: !MatchesAt(s, j, q)
    requires '/' in s
    ensures Parse(s).Success?
    ensures var r := Parse(s).value;
      '/' !in r.owner && r.owner + "/" + r.name == s
    ensures var r := Parse(s).value;
      var k := |r.owner|; k < |s| && s[k] == '/' && r.owner == s[..k] && r.name == s[k + 1..]
  {
    var m := LeftmostMatch(s, 0);
    if m.Some? {
      MatchAtSound(s, m.value);
      assert false;
    }
    var k := FirstSlash(s);
    assert s[..k] + "/" + s[k + 1..] == s;
  }

  /** Without a URL match and without `/` the parser raises InvalidFormat and returns no pair. */
  lemma ParseInvalid(s: string)
    requires '/' !in s
    ensures Parse(s) == Failure(InvalidFormat)
  {
  }

  /** `github.com/` has no proper prefix that is also a suffix, so two occurrences cannot overlap. */
  lemma HostNoOverlap(s: string, j: nat, p: nat)
    requires HostAt(s, p) && j < p < j + |Host|
    ensures !HostAt(s, j)
  {
    assert s[p] == s[p..p + |Host|][0] == 'g';
    assert Host[p - j] != 'g';
    if j + |Host| <= |s| {
      assert s[j..j + |Host|][p - j] == s[p];
    }
  }

  /**
   * Any text before `github.com/<owner>/<name>` that does not itself contain
   * `github.com/`, and any trailing text that does not continue the name,
   * is ignored.
   */
  lemma ParseUrlForm(prefix: string, owner: string, name: string, rest: string)
    requires IsSegment(owner) && IsSegment(name)
    requires rest == [] || !IsSegChar(rest[0])
    requires forall j: nat :: !HostAt(prefix, j)
    ensures Parse(prefix + Host + owner + "/" + name + rest) == Success(RepoRef(owner, name))
  {
    var s := prefix + Host + owner + "/" + name + rest;
    var tail := Host + owner + "/" + name + rest;
    assert s == prefix + tail;
    assert tail[..|Host|] == Host;
    UrlFormMatches(prefix, owner, name, rest);
    forall j: nat, q | j < |prefix|
      ensures !MatchesAt(s, j, q)
    {
      NoHostBefore(prefix, tail, j);
    }
    ParseLeftmost(s, |prefix|, RepoRef(owner, name));
  }

  lemma UrlFormMatches(prefix: string, owner: string, name: string, rest: string)
    requires IsSegment(owner) && IsSegment(name)
    requires rest == [] || !IsSegChar(rest[0])
    ensures MatchesAt(prefix + Host + owner + "/" + name + rest, |prefix|, RepoRef(owner, name))
  {
    var s := prefix + Host + owner + "/" + name + rest;
    var i := |prefix|;
    var j := i + |Host|;
    var k := j + |owner| + 1;
    var e := k + |name|;
    assert s[i..j] == Host;
    assert s[j..k - 1] == owner;
    assert s[k - 1] == '/';
    assert s[k..e] == name;
    assert e < |s| ==> s[e] == rest[0];
  }

  /** When `prefix` does not contain `github.com/` and `tail` starts with it, `github.com/` does not start inside `prefix`. */
  lemma NoHostBefore(prefix: string, tail: string, j: nat)
    requires forall i: nat :: !HostAt(prefix, i)
    requires HostAt(tail, 0)
    requires j < |prefix|
    ensures !HostAt(prefix + tail, j)
  {
    var s := prefix + tail;
    if j + |Host| <= |prefix| {
      assert !HostAt(prefix, j);
      assert prefix[j..j + |Host|] == s[j..j + |Host|];
    } else {
      assert s[|prefix|..|prefix| + |Host|] == tail[..|Host|];
      HostNoOverlap(s, j, |prefix|);
    }
  }

  /** A repository name containing `.` is cut at the `.`: `github.com/o/r.git` names repository `r`. */
  lemma DotTruncatesName()
    ensures Parse("https://github.com/o/r.git") == Success(RepoRef("o", "r"))
  {
    assert "https://github.com/o/r.git" == "https://" + Host + "o" + "/" + "r" + ".git";
    ParseUrlForm("https://", "o", "r", ".git");
  }

  /** `/x` has no URL match; the split gives an empty owner. */
  lemma EmptyOwner()
    ensures Parse("/x") == Success(RepoRef("", "x"))
  {
    ParseSplit("/x");
  }

  /** `a/b/c` has no URL match; the split keeps `b/c` as the repository name. */
  lemma NameKeepsSlash()
    ensures Parse("a/b/c") == Success(RepoRef("a", "b/c"))
  {
    var s := "a/b/c";
    ParseSplit(s);
    var r := Parse(s).value;
    var k := |r.owner|;
    assert s[0] == 'a' && s[1] == '/';
    assert k == 1;
    assert r.owner == s[..1] == "a";
    assert r.name == s[2..] == "b/c";
  }
}
