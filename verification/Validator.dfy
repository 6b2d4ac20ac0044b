/** The candidate validator (`scan_post`): each name mentioned in a post's
    comments that is neither in the directory nor already found is looked up
    on the platform, and only a public, non-quarantined community is added. */
module Validator {
  import opened Wrappers
  import opened Extractor

  /** What looking a community up yields: its attributes, or the exception
      the platform client raised. */
  datatype Lookup =
    | Found(subredditType: string, quarantine: bool)
    | NotFound
    | Redirect
    | Forbidden
    | BadRequest
    | Failed      // any other exception: it is not caught and ends the scan

  /** The lookup outcome that leads to `pm_subreddits.add`. */
  predicate Accepts(l: Lookup)
  {
    l.Found? && l.subredditType == "public" && !l.quarantine
  }

  /** The names the post's comments mention, lower-cased. */
  function PostNames(comments: seq<string>): set<string>
  {
    Mentions(CommentText(comments))
  }

  /** The names that reach the lookup: mentioned, not in the directory and
      not already found in this scan. */
  function Candidates(comments: seq<string>, dir: set<string>, pm: set<string>): set<string>
  {
    set n | n in PostNames(comments) && n !in dir && n !in pm
  }

  /** The names the post contributes: mentioned, not in the directory, and
      public and not quarantined. */
  function NewNames(comments: seq<string>, dir: set<string>, lookup: string -> Lookup): set<string>
  {
    set n | n in PostNames(comments) && n !in dir && Accepts(lookup(n))
  }

  /** The outcome of scanning one post, independent of the order in which the
      set of names is visited: an uncaught exception if any candidate's lookup
      raises one, otherwise the accumulator grown by the post's new names. */
  function PostOutcome(comments: seq<string>, dir: set<string>, pm: set<string>, lookup: string -> Lookup): Result<set<string>>
  {
    if exists n :: n in Candidates(comments, dir, pm) && lookup(n).Failed? then Err(RequestFailed)
    else Ok(pm + NewNames(comments, dir, lookup))
  }

  /** `scan_post`: visits the extracted names in an unspecified order (the
      iteration order of a Python set), skips directory names and names
      already found before any lookup, and adds the accepted ones. `queried`
      is the set of names looked up. */
  method ScanPost(comments: seq<string>, dir: set<string>, pm: set<string>, lookup: string -> Lookup)
    returns (r: Result<set<string>>, queried: set<string>)
    ensures r == PostOutcome(comments, dir, pm, lookup)
    ensures r.Ok? ==> pm <= r.value
    ensures r.Ok? ==> forall n :: n in r.value - pm ==>
      n in PostNames(comments) && n !in dir && Accepts(lookup(n))
    ensures queried <= Candidates(comments, dir, pm)
    ensures queried !! dir && queried !! pm
    ensures r.Ok? ==> queried == Candidates(comments, dir, pm)
    ensures r.Err? ==> exists n :: n in queried && lookup(n).Failed?
  {
    var names := PostNames(comments);
    var todo := names;
    var acc := pm;
    queried := {};
    while todo != {}
      invariant todo <= names
      invariant acc == pm + set n | n in names - todo && n !in dir && Accepts(lookup(n))
      invariant queried == set n | n in names - todo && n !in dir && n !in pm
      invariant forall n :: n in queried ==> !lookup(n).Failed?
      decreases todo
    {
      var n :| n in todo;
      todo := todo - {n};
      if n in dir {
        continue;
      }
      if n in acc {
        continue;
      }
      queried := queried + {n};
      match lookup(n)
      case Failed =>
        assert n in Candidates(comments, dir, pm);
        r := Err(RequestFailed);
        return;
      case NotFound =>
      case Redirect =>
      case Forbidden =>
      case BadRequest =>
      case Found(kind, quarantined) =>
        if kind != "public" {
          continue;
        } else if quarantined {
          continue;
        } else {
          acc := acc + {n};
        }
    }
    assert names - todo == names;
    assert queried == Candidates(comments, dir, pm);
    assert acc == pm + NewNames(comments, dir, lookup);
    r := Ok(acc);
  }

  /** The accumulator only grows, by exactly the accepted names the post
      mentions that the directory does not list; so a directory name is never
      added, and a name already found is not changed. */
  lemma PostOutcomeGrows(comments: seq<string>, dir: set<string>, pm: set<string>, lookup: string -> Lookup)
    requires PostOutcome(comments, dir, pm, lookup).Ok?
    ensures pm <= PostOutcome(comments, dir, pm, lookup).value
    ensures forall n :: n in PostOutcome(comments, dir, pm, lookup).value <==>
      n in pm || (n in PostNames(comments) && n !in dir && Accepts(lookup(n)))
    ensures PostOutcome(comments, dir, pm, lookup).value * dir == pm * dir
  {
  }

  /** While every name already found was accepted by its lookup (which the
      scan keeps true), a post fails exactly when one of its mentions outside
      the directory fails to look up. */
  lemma PostOutcomeFails(comments: seq<string>, dir: set<string>, pm: set<string>, lookup: string -> Lookup)
    requires forall n :: n in pm ==> Accepts(lookup(n))
    ensures PostOutcome(comments, dir, pm, lookup).Err? <==>
      exists n :: n in PostNames(comments) && n !in dir && lookup(n).Failed?
    ensures PostOutcome(comments, dir, pm, lookup).Ok? ==>
      forall n :: n in PostOutcome(comments, dir, pm, lookup).value ==> Accepts(lookup(n))
  {
    if exists n :: n in PostNames(comments) && n !in dir && lookup(n).Failed? {
      var n :| n in PostNames(comments) && n !in dir && lookup(n).Failed?;
      assert n in Candidates(comments, dir, pm);
    }
  }

  /** A directory name is skipped without a lookup and only the new, public,
      non-quarantined name is added. */
  lemma DirectoryNameSkipped(comments: seq<string>, lookup: string -> Lookup)
    requires PostNames(comments) == {"aww", "catgifs"}
    requires lookup("catgifs") == Found("public", false)
    ensures Candidates(comments, {"aww"}, {}) == {"catgifs"}
    ensures PostOutcome(comments, {"aww"}, {}, lookup) == Ok({"catgifs"})
  {
    assert Candidates(comments, {"aww"}, {}) == {"catgifs"};
    assert NewNames(comments, {"aww"}, lookup) == {"catgifs"};
    var none: set<string> := {};
    assert none + {"catgifs"} == {"catgifs"};
  }

  /** A name that is not found is left out and the scan goes on. */
  lemma NotFoundSkipped(comments: seq<string>, lookup: string -> Lookup)
    requires PostNames(comments) == {"catgifs", "aww"}
    requires lookup("catgifs") == NotFound && lookup("aww") == Found("public", false)
    ensures PostOutcome(comments, {}, {}, lookup) == Ok({"aww"})
  {
    assert Candidates(comments, {}, {}) == {"catgifs", "aww"};
    assert NewNames(comments, {}, lookup) == {"aww"};
    var none: set<string> := {};
    assert none + {"aww"} == {"aww"};
  }
}
