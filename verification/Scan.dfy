/** The scan orchestrator (`scan_sub`): fetch the newest posts of the
    subreddit in bounded rounds, then scan them newest first until the first
    post older than the cutoff, accumulating the names each post contributes. */
module Scan {
  import opened Wrappers
  import opened Extractor
  import opened Registry
  import opened Validator

  /** At most ten requests (`range(10)`) of at most a hundred posts each (`limit = 100`). */
  const MaxRounds: nat := 10
  const PageSize: nat := 100

  /** A post: its creation time (seconds, UTC) and the bodies of all its comments. */
  datatype Post = Post(created: int, comments: seq<string>)

  /** The posts of several responses, in the order they were received. */
  function Flatten(pages: seq<seq<Post>>): seq<Post>
  {
    if pages == [] then [] else Flatten(pages[..|pages| - 1]) + pages[|pages| - 1]
  }

  /** The fetch loop from round `round` on, with `posts` received so far.
      `pages[i]` is the response to the `i`-th request. */
  function FetchFrom(pages: seq<seq<Post>>, cutoff: int, round: nat, posts: seq<Post>): Result<seq<Post>>
    requires round <= |pages|
    decreases |pages| - round
  {
    if round == |pages| then Ok(posts)
    else
      var more := posts + pages[round];
      if more == [] then Err(IndexError)
      else if more[|more| - 1].created < cutoff then Ok(more)
      else FetchFrom(pages, cutoff, round + 1, more)
  }

  function Fetch(pages: seq<seq<Post>>, cutoff: int): Result<seq<Post>>
  {
    FetchFrom(pages, cutoff, 0, [])
  }

  /** The fetch loop of `scan_sub`: appends each response and stops early once
      the last post received is older than the cutoff; `posts[-1]` on an
      empty list raises. */
  method FetchPosts(pages: seq<seq<Post>>, cutoff: int) returns (r: Result<seq<Post>>)
    requires |pages| == MaxRounds
    ensures r == Fetch(pages, cutoff)
  {
    var posts: seq<Post> := [];
    for round := 0 to MaxRounds
      invariant FetchFrom(pages, cutoff, round, posts) == Fetch(pages, cutoff)
    {
      posts := posts + pages[round];
      if posts == [] {
        r := Err(IndexError);
        return;
      }
      if posts[|posts| - 1].created < cutoff {
        r := Ok(posts);
        return;
      }
    }
    r := Ok(posts);
  }

  ghost predicate LastAtOrAfter(posts: seq<Post>, cutoff: int)
  {
    posts != [] && posts[|posts| - 1].created >= cutoff
  }

  /** The fetch stopped after `k` requests: every earlier request ended with a
      post inside the window, and unless all requests were used, the `k`-th
      ended with one outside it. */
  ghost predicate StoppedAfter(pages: seq<seq<Post>>, cutoff: int, k: int)
  {
    1 <= k <= |pages| && Flatten(pages[..k]) != []
    && (forall j :: 1 <= j < k ==> LastAtOrAfter(Flatten(pages[..j]), cutoff))
    && (k < |pages| ==> !LastAtOrAfter(Flatten(pages[..k]), cutoff))
  }

  lemma FlattenStep(pages: seq<seq<Post>>, k: nat)
    requires k < |pages|
    ensures Flatten(pages[..k + 1]) == Flatten(pages[..k]) + pages[k]
  {
    assert pages[..k + 1][..k] == pages[..k];
  }

  lemma {:induction false} FetchFromShape(pages: seq<seq<Post>>, cutoff: int, round: nat)
    requires round <= |pages|
    requires round >= 1 ==> Flatten(pages[..round]) != []
    requires forall j :: 1 <= j <= round ==> LastAtOrAfter(Flatten(pages[..j]), cutoff)
    ensures FetchFrom(pages, cutoff, round, Flatten(pages[..round])).Err? <==> round == 0 && pages != [] && pages[0] == []
    ensures FetchFrom(pages, cutoff, round, Flatten(pages[..round])).Ok? && round < |pages| ==>
      exists k :: StoppedAfter(pages, cutoff, k)
        && FetchFrom(pages, cutoff, round, Flatten(pages[..round])).value == Flatten(pages[..k])
    decreases |pages| - round
  {
    if round < |pages| {
      FlattenStep(pages, round);
      var more := Flatten(pages[..round + 1]);
      if round == 0 {
        assert Flatten(pages[..0]) == [];
      }
      if more != [] && !(more[|more| - 1].created < cutoff) {
        FetchFromShape(pages, cutoff, round + 1);
        if round + 1 == |pages| {
          assert StoppedAfter(pages, cutoff, round + 1);
        }
      } else if more != [] {
        assert StoppedAfter(pages, cutoff, round + 1);
      }
    }
  }

  lemma {:induction false} FlattenBound(pages: seq<seq<Post>>)
    requires forall i :: 0 <= i < |pages| ==> |pages[i]| <= PageSize
    ensures |Flatten(pages)| <= PageSize * |pages|
  {
    if pages != [] {
      FlattenBound(pages[..|pages| - 1]);
    }
  }

  /** What the fetch loop returns: it fails exactly when the first response is
      empty; otherwise it returns the concatenated responses of the requests
      made, stopping at the first response whose last post is older than the
      cutoff, and so at most 10 * 100 posts. */
  lemma FetchShape(pages: seq<seq<Post>>, cutoff: int)
    requires |pages| == MaxRounds
    requires forall i :: 0 <= i < |pages| ==> |pages[i]| <= PageSize
    ensures Fetch(pages, cutoff).Err? <==> pages[0] == []
    ensures Fetch(pages, cutoff).Ok? ==>
      exists k :: StoppedAfter(pages, cutoff, k) && Fetch(pages, cutoff).value == Flatten(pages[..k])
    ensures Fetch(pages, cutoff).Ok? ==> |Fetch(pages, cutoff).value| <= MaxRounds * PageSize
  {
    assert Flatten(pages[..0]) == [];
    FetchFromShape(pages, cutoff, 0);
    if Fetch(pages, cutoff).Ok? {
      var k :| StoppedAfter(pages, cutoff, k) && Fetch(pages, cutoff).value == Flatten(pages[..k]);
      FlattenBound(pages[..k]);
    }
  }

  /** `n` responses that are all the same page. */
  function Repeated(page: seq<Post>, n: nat): (pages: seq<seq<Post>>)
    ensures |pages| == n && forall i :: 0 <= i < n ==> pages[i] == page
  {
    seq(n, _ => page)
  }

  lemma {:induction false} FlattenRepeated(page: seq<Post>, n: nat)
    ensures |Flatten(Repeated(page, n))| == n * |page|
    ensures forall p :: p in Flatten(Repeated(page, n)) ==> p in page
    ensures n > 0 ==> Flatten(Repeated(page, n)) == Flatten(Repeated(page, n - 1)) + page
  {
    if n > 0 {
      assert Repeated(page, n)[..n - 1] == Repeated(page, n - 1);
      FlattenRepeated(page, n - 1);
    }
  }

  /** Each request of the fetch loop asks for the newest hundred posts again,
      with no cursor, so every response is the same page. When that page ends
      inside the window the loop never stops early: it returns ten copies of
      the page, and no post beyond it is ever fetched or scanned. */
  lemma RefetchRepeatsNewest(page: seq<Post>, cutoff: int)
    requires 0 < |page| <= PageSize
    requires page[|page| - 1].created >= cutoff
    ensures Fetch(Repeated(page, MaxRounds), cutoff) == Ok(Flatten(Repeated(page, MaxRounds)))
    ensures |Fetch(Repeated(page, MaxRounds), cutoff).value| == MaxRounds * |page|
    ensures forall p :: p in Fetch(Repeated(page, MaxRounds), cutoff).value ==> p in page
  {
    var pages := Repeated(page, MaxRounds);
    FetchShape(pages, cutoff);
    var k :| StoppedAfter(pages, cutoff, k) && Fetch(pages, cutoff).value == Flatten(pages[..k]);
    assert pages[..k] == Repeated(page, k);
    FlattenRepeated(page, k);
    assert LastAtOrAfter(Flatten(pages[..k]), cutoff);
    assert pages[..MaxRounds] == pages;
    FlattenRepeated(page, MaxRounds);
  }

  /** The posts the scan loop visits: the longest prefix of posts created at
      or after the cutoff. */
  function Window(posts: seq<Post>, cutoff: int): (w: seq<Post>)
    ensures |w| <= |posts| && w == posts[..|w|]
    ensures forall i :: 0 <= i < |w| ==> w[i].created >= cutoff
    ensures |w| < |posts| ==> posts[|w|].created < cutoff
  {
    if posts == [] || posts[0].created < cutoff then []
    else [posts[0]] + Window(posts[1..], cutoff)
  }

  /** Scanning the posts in order, threading the accumulator through. */
  function ScanPosts(posts: seq<Post>, dir: set<string>, pm: set<string>, lookup: string -> Lookup): Result<set<string>>
  {
    if posts == [] then Ok(pm)
    else
      match PostOutcome(posts[0].comments, dir, pm, lookup)
      case Err(e) => Err(e)
      case Ok(grown) => ScanPosts(posts[1..], dir, grown, lookup)
  }

  /** `scan_sub` as a function of the pages it reads and the lookups it makes. */
  function ScanSubOutcome(directory: Page, newsubs: Page, checkNewsubs: bool,
                          pages: seq<seq<Post>>, cutoff: int, lookup: string -> Lookup): Result<set<string>>
  {
    match GetWikiSubreddits(directory, newsubs, checkNewsubs)
    case Err(e) => Err(e)
    case Ok(dir) =>
      match Fetch(pages, cutoff)
      case Err(e) => Err(e)
      case Ok(posts) => ScanPosts(Window(posts, cutoff), dir, {}, lookup)
  }

  /** Some post mentions a name outside the directory whose lookup fails. */
  ghost predicate SomeLookupFails(posts: seq<Post>, dir: set<string>, lookup: string -> Lookup)
  {
    exists j, n :: 0 <= j < |posts| && n in PostNames(posts[j].comments) && n !in dir && lookup(n).Failed?
  }

  /** Scanning a sequence of posts fails exactly when some post mentions a
      name outside the directory whose lookup fails; otherwise the result is
      the accumulator together with every name some post contributes. */
  lemma {:induction false} ScanPostsOutcome(posts: seq<Post>, dir: set<string>, pm: set<string>, lookup: string -> Lookup)
    requires forall n :: n in pm ==> Accepts(lookup(n))
    ensures ScanPosts(posts, dir, pm, lookup).Err? <==>
      SomeLookupFails(posts, dir, lookup)
    ensures ScanPosts(posts, dir, pm, lookup).Ok? ==> forall n :: n in ScanPosts(posts, dir, pm, lookup).value <==>
      n in pm || exists j :: 0 <= j < |posts| && n in NewNames(posts[j].comments, dir, lookup)
  {
    if posts != [] {
      var out := PostOutcome(posts[0].comments, dir, pm, lookup);
      PostOutcomeFails(posts[0].comments, dir, pm, lookup);
      if out.Ok? {
        PostOutcomeGrows(posts[0].comments, dir, pm, lookup);
        ScanPostsOutcome(posts[1..], dir, out.value, lookup);
        forall j | 0 <= j < |posts[1..]|
          ensures posts[1..][j] == posts[j + 1]
        {
        }
        if ScanPosts(posts, dir, pm, lookup).Ok? {
          forall n | n in pm || exists j :: 0 <= j < |posts| && n in NewNames(posts[j].comments, dir, lookup)
            ensures n in ScanPosts(posts, dir, pm, lookup).value
          {
            if n !in pm && n !in out.value {
              var j :| 0 <= j < |posts| && n in NewNames(posts[j].comments, dir, lookup);
              assert j != 0;
              assert n in NewNames(posts[1..][j - 1].comments, dir, lookup);
            }
          }
        }
      }
    }
  }

  /** The names `scan_sub` reports are exactly those that some post inside the
      window mentions, that are not in the registry, and that are public and
      not quarantined; it fails exactly when such a post mentions a name
      outside the registry whose lookup fails. */
  lemma ScanSubReports(directory: Page, newsubs: Page, checkNewsubs: bool,
                       pages: seq<seq<Post>>, cutoff: int, lookup: string -> Lookup)
    requires GetWikiSubreddits(directory, newsubs, checkNewsubs).Ok? && Fetch(pages, cutoff).Ok?
    ensures var dir := WikiSubreddits(directory.text, newsubs, checkNewsubs);
            var window := Window(Fetch(pages, cutoff).value, cutoff);
            ScanSubOutcome(directory, newsubs, checkNewsubs, pages, cutoff, lookup).Err? <==>
              SomeLookupFails(window, dir, lookup)
    ensures var dir := WikiSubreddits(directory.text, newsubs, checkNewsubs);
            var window := Window(Fetch(pages, cutoff).value, cutoff);
            var r := ScanSubOutcome(directory, newsubs, checkNewsubs, pages, cutoff, lookup);
            r.Ok? ==> forall n :: n in r.value <==>
              exists j :: 0 <= j < |window| && n in NewNames(window[j].comments, dir, lookup)
  {
    var dir := WikiSubreddits(directory.text, newsubs, checkNewsubs);
    var window := Window(Fetch(pages, cutoff).value, cutoff);
    assert GetWikiSubreddits(directory, newsubs, checkNewsubs) == Ok(dir);
    assert ScanSubOutcome(directory, newsubs, checkNewsubs, pages, cutoff, lookup) == ScanPosts(window, dir, {}, lookup);
    ScanPostsOutcome(window, dir, {}, lookup);
  }

  /** A reported name is never already listed in the registry and always
      passed the public, non-quarantined test. */
  lemma ScanSubExcludesRegistry(directory: Page, newsubs: Page, checkNewsubs: bool,
                                pages: seq<seq<Post>>, cutoff: int, lookup: string -> Lookup)
    requires ScanSubOutcome(directory, newsubs, checkNewsubs, pages, cutoff, lookup).Ok?
    ensures directory.Present? && !(checkNewsubs && newsubs.Unreadable?)
    ensures forall n :: n in ScanSubOutcome(directory, newsubs, checkNewsubs, pages, cutoff, lookup).value ==>
      n !in WikiSubreddits(directory.text, newsubs, checkNewsubs) && Accepts(lookup(n))
  {
    ScanSubReports(directory, newsubs, checkNewsubs, pages, cutoff, lookup);
  }

  /** A name the directory page lists as `/r/<n>` between spaces is never
      reported. */
  lemma ListedNameNeverReported(a: string, n: string, c: string, newsubs: Page, checkNewsubs: bool,
                                pages: seq<seq<Post>>, cutoff: int, lookup: string -> Lookup)
    requires IsName(n)
    ensures var r := ScanSubOutcome(Present(a + " /r/" + n + " " + c), newsubs, checkNewsubs, pages, cutoff, lookup);
            r.Ok? ==> Lower(n) !in r.value
  {
    var directory := Present(a + " /r/" + n + " " + c);
    if ScanSubOutcome(directory, newsubs, checkNewsubs, pages, cutoff, lookup).Ok? {
      ScanSubExcludesRegistry(directory, newsubs, checkNewsubs, pages, cutoff, lookup);
      ListedNameInRegistry(a, n, c, newsubs, checkNewsubs);
    }
  }

  /** `scan_sub`: builds the registry, fetches, then scans each post until
      the first one older than the cutoff. */
  method ScanSub(directory: Page, newsubs: Page, checkNewsubs: bool,
                 pages: seq<seq<Post>>, cutoff: int, lookup: string -> Lookup)
    returns (r: Result<set<string>>)
    requires |pages| == MaxRounds
    ensures r == ScanSubOutcome(directory, newsubs, checkNewsubs, pages, cutoff, lookup)
  {
    var registry := GetWikiSubreddits(directory, newsubs, checkNewsubs);
    if registry.Err? {
      r := Err(registry.error);
      return;
    }
    var dir := registry.value;
    var fetched := FetchPosts(pages, cutoff);
    if fetched.Err? {
      r := Err(fetched.error);
      return;
    }
    var posts := fetched.value;
    ghost var window := Window(posts, cutoff);
    var pm: set<string> := {};
    var i := 0;
    while i < |posts|
      invariant i <= |window|
      invariant ScanPosts(window[i..], dir, pm, lookup) == ScanPosts(window, dir, {}, lookup)
    {
      if posts[i].created < cutoff {
        break;
      }
      assert window[i] == posts[i];
      var res, _ := ScanPost(posts[i].comments, dir, pm, lookup);
      if res.Err? {
        r := Err(res.error);
        return;
      }
      pm := pm + res.value;
      assert window[i..][1..] == window[i + 1..];
      i := i + 1;
    }
    assert window[i..] == [];
    r := Ok(pm);
  }
}
