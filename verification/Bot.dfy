/** The bot's main loop (`main`): one pass scans, messages and saves; the loop
    sleeps twelve hours after a pass that succeeds, backs off after one that
    raises, and gives up on the seventh failure in a row. */
module Bot {
  import opened Wrappers
  import opened Validator
  import opened Scan
  import opened Report

  /** `SLEEP_TIME`: twelve hours, in seconds. */
  const SleepTime: nat := 60 * 60 * 12
  /** The window scanned: posts of the last day. */
  const Day: nat := 24 * 60 * 60
  /** `failed_attempts > 5` re-raises. */
  const FailureLimit: nat := 5
  /** Consecutive failures that end the loop: the one that finds
      `failed_attempts == 6`, after six that incremented it. */
  const FatalRun: nat := FailureLimit + 2

  /** What one pass reads from the site: the two wiki pages of the subreddit,
      the responses to the listing requests, the lookup of each name, whether
      the message could be delivered, the page the table is saved to and the
      description of each name. */
  datatype Site = Site(directory: Page, newsubs: Page, pages: seq<seq<Post>>,
                       lookup: string -> Lookup, delivered: bool, workshop: Page,
                       describe: string -> Option<string>)

  /** What a pass that does not raise produces: the names found, the message
      sent, and the new text of the table page (if it was written). */
  datatype Pass = Pass(found: set<string>, message: string, saved: Option<string>)

  /** The names one pass finds; `clock` is the current time in seconds. */
  function Found(site: Site, checkNewsubs: bool, clock: int): Result<set<string>>
  {
    ScanSubOutcome(site.directory, site.newsubs, checkNewsubs, site.pages, clock - Day, site.lookup)
  }

  /** The body of the `try` in `main`: scan, send the message, then save the
      table when `SAVE_NEWSUBS` is set. `stamp` is the ISO rendering of the
      clock. The order of `order` is the set's iteration order, which both
      the message and the table follow. `sent` is the message delivered, if
      any: it has gone out even when saving the table then raises. */
  method RunPass(site: Site, checkNewsubs: bool, saveNewsubs: bool, clock: int, stamp: string)
    returns (r: Result<Pass>, order: seq<string>, sent: Option<string>)
    requires |site.pages| == MaxRounds
    ensures Found(site, checkNewsubs, clock).Ok? ==> Enumerates(order, Found(site, checkNewsubs, clock).value)
    ensures sent == (if Found(site, checkNewsubs, clock).Ok? && site.delivered then Some(PmText(order)) else None)
    ensures r.Ok? <==>
      Found(site, checkNewsubs, clock).Ok? && site.delivered
      && (saveNewsubs ==> !site.workshop.Unreadable?)
      && (saveNewsubs && site.workshop.Present? ==>
            forall n :: n in Found(site, checkNewsubs, clock).value ==> site.describe(n).Some?)
    ensures r.Ok? ==> r.value.found == Found(site, checkNewsubs, clock).value
    ensures r.Ok? ==> Enumerates(order, r.value.found) && r.value.message == PmText(order)
    ensures r.Ok? ==>
      r.value.saved == (if saveNewsubs then SaveOutcome(site.workshop, stamp, order, site.describe).value else None)
  {
    order := [];
    sent := None;
    var scanned := ScanSub(site.directory, site.newsubs, checkNewsubs, site.pages, clock - Day, site.lookup);
    if scanned.Err? {
      r := Err(scanned.error);
      return;
    }
    var found := scanned.value;
    order := Enumerate(found);
    var message := PmText(order);
    if !site.delivered {
      r := Err(RequestFailed);
      return;
    }
    sent := Some(message);
    var saved: Option<string> := None;
    if saveNewsubs {
      var written := SaveNewSubs(site.workshop, stamp, order, site.describe);
      if written.Err? {
        r := Err(written.error);
        return;
      }
      saved := written.value;
    }
    r := Ok(Pass(found, message, saved));
  }

  /** The number of failures at the end of `outcomes` (`true` is a pass that
      succeeded): the value of `failed_attempts` after those passes. */
  function TrailingFailures(outcomes: seq<bool>): (k: nat)
    ensures k <= |outcomes|
    ensures forall j :: |outcomes| - k <= j < |outcomes| ==> !outcomes[j]
    ensures k < |outcomes| ==> outcomes[|outcomes| - 1 - k]
  {
    if outcomes == [] || outcomes[|outcomes| - 1] then 0
    else 1 + TrailingFailures(outcomes[..|outcomes| - 1])
  }

  /** The `FatalRun` passes from `k` on all failed. */
  ghost predicate FailedFrom(outcomes: seq<bool>, k: int)
  {
    0 <= k && k + FatalRun <= |outcomes| && forall j :: k <= j < k + FatalRun ==> !outcomes[j]
  }

  /** Some `FatalRun` passes in a row failed. */
  ghost predicate HasFatalRun(outcomes: seq<bool>)
  {
    exists k :: FailedFrom(outcomes, k)
  }

  /** `m` failures at the end mean at least `m` trailing failures. */
  lemma {:induction false} TrailingAtLeast(outcomes: seq<bool>, m: nat)
    requires m <= |outcomes|
    requires forall j :: |outcomes| - m <= j < |outcomes| ==> !outcomes[j]
    ensures TrailingFailures(outcomes) >= m
  {
    if m > 0 {
      var front := outcomes[..|outcomes| - 1];
      assert !outcomes[|outcomes| - 1];
      forall j | |front| - (m - 1) <= j < |front|
        ensures !front[j]
      {
        assert front[j] == outcomes[j];
      }
      TrailingAtLeast(front, m - 1);
    }
  }

  /** One more pass completes a fatal run exactly when it fails after
      `FatalRun - 1` failures in a row. */
  lemma FatalRunExtend(outcomes: seq<bool>, next: bool)
    ensures HasFatalRun(outcomes + [next]) <==>
      HasFatalRun(outcomes) || (!next && TrailingFailures(outcomes) >= FatalRun - 1)
  {
    var s := outcomes + [next];
    if HasFatalRun(s) {
      var k :| FailedFrom(s, k);
      if k + FatalRun <= |outcomes| {
        forall j | k <= j < k + FatalRun
          ensures !outcomes[j]
        {
          assert s[j] == outcomes[j];
        }
        assert FailedFrom(outcomes, k);
      } else {
        assert !s[|outcomes|];
        forall j | |outcomes| - (FatalRun - 1) <= j < |outcomes|
          ensures !outcomes[j]
        {
          assert s[j] == outcomes[j];
        }
        TrailingAtLeast(outcomes, FatalRun - 1);
      }
    }
    if !next && TrailingFailures(outcomes) >= FatalRun - 1 {
      var k := |outcomes| + 1 - FatalRun;
      forall j | k <= j < k + FatalRun
        ensures !s[j]
      {
        if j < |outcomes| {
          assert s[j] == outcomes[j];
        }
      }
      assert FailedFrom(s, k);
    }
    if HasFatalRun(outcomes) {
      var k :| FailedFrom(outcomes, k);
      forall j | k <= j < k + FatalRun
        ensures !s[j]
      {
        assert s[j] == outcomes[j];
      }
      assert FailedFrom(s, k);
    }
  }

  /** A fatal run in a prefix is a fatal run of the whole history. */
  lemma FatalRunPrefix(outcomes: seq<bool>, n: nat)
    requires n <= |outcomes|
    requires HasFatalRun(outcomes[..n])
    ensures HasFatalRun(outcomes)
  {
    var p := outcomes[..n];
    var k :| FailedFrom(p, k);
    forall j | k <= j < k + FatalRun
      ensures !outcomes[j]
    {
      assert p[j] == outcomes[j];
    }
    assert FailedFrom(outcomes, k);
  }

  /** The sleeps after each pass: twelve hours after a success, three seconds
      times the failure count after a failure. */
  function Delays(outcomes: seq<bool>): (d: seq<nat>)
    ensures |d| == |outcomes|
  {
    if outcomes == [] then []
    else
      Delays(outcomes[..|outcomes| - 1])
      + [if outcomes[|outcomes| - 1] then SleepTime else 3 * TrailingFailures(outcomes)]
  }

  /** Without a fatal run every back-off lasts between 3 and 18 seconds. */
  lemma {:induction false} DelaysBounded(outcomes: seq<bool>)
    requires !HasFatalRun(outcomes)
    ensures forall i :: 0 <= i < |outcomes| ==>
      Delays(outcomes)[i] == SleepTime || 3 <= Delays(outcomes)[i] <= 3 * (FailureLimit + 1)
  {
    if outcomes != [] {
      var front := outcomes[..|outcomes| - 1];
      var last := outcomes[|outcomes| - 1];
      assert outcomes == front + [last];
      FatalRunExtend(front, last);
      DelaysBounded(front);
    }
  }

  /** The `while True` loop of `main`, run over the outcomes of successive
      passes, after logging in (a failed login returns before the loop). */
  method Run(loggedIn: bool, outcomes: seq<bool>) returns (failedAttempts: nat, sleeps: seq<nat>, raised: bool)
    ensures !loggedIn ==> sleeps == [] && !raised
    ensures loggedIn ==> (raised <==> HasFatalRun(outcomes))
    ensures !raised && loggedIn ==> |sleeps| == |outcomes| && failedAttempts == TrailingFailures(outcomes)
    ensures raised ==> |sleeps| < |outcomes| && failedAttempts == FailureLimit + 1
    ensures raised ==> HasFatalRun(outcomes[..|sleeps| + 1]) && !HasFatalRun(outcomes[..|sleeps|])
    ensures |sleeps| <= |outcomes| && sleeps == Delays(outcomes[..|sleeps|])
    ensures failedAttempts <= FailureLimit + 1
  {
    failedAttempts := 0;
    sleeps := [];
    raised := false;
    if !loggedIn {
      return;
    }
    var i := 0;
    while i < |outcomes|
      invariant 0 <= i <= |outcomes| && |sleeps| == i
      invariant failedAttempts == TrailingFailures(outcomes[..i]) <= FailureLimit + 1
      invariant !HasFatalRun(outcomes[..i])
      invariant sleeps == Delays(outcomes[..i])
    {
      assert outcomes[..i + 1] == outcomes[..i] + [outcomes[i]];
      assert outcomes[..i + 1][..i] == outcomes[..i];
      FatalRunExtend(outcomes[..i], outcomes[i]);
      if outcomes[i] {
        sleeps := sleeps + [SleepTime];
        failedAttempts := 0;
      } else {
        if failedAttempts > FailureLimit {
          raised := true;
          FatalRunPrefix(outcomes, i + 1);
          return;
        }
        failedAttempts := failedAttempts + 1;
        sleeps := sleeps + [3 * failedAttempts];
      }
      i := i + 1;
    }
    assert outcomes[..i] == outcomes;
  }

  /** `n` passes that all failed. */
  function AllFailed(n: nat): (s: seq<bool>)
    ensures |s| == n && forall i :: 0 <= i < n ==> !s[i]
  {
    seq(n, _ => false)
  }

  /** After `n` failures in a row the counter is `n`, the back-offs so far
      were 3, 6, ..., 3n seconds, and the loop has given up exactly when
      `n` reached `FatalRun`. */
  lemma {:induction false} FailureStreak(n: nat)
    ensures TrailingFailures(AllFailed(n)) == n
    ensures forall i :: 0 <= i < n ==> Delays(AllFailed(n))[i] == 3 * (i + 1)
    ensures HasFatalRun(AllFailed(n)) <==> n >= FatalRun
  {
    if n > 0 {
      var front := AllFailed(n - 1);
      assert AllFailed(n)[..n - 1] == front;
      assert AllFailed(n) == front + [false];
      FailureStreak(n - 1);
      FatalRunExtend(front, false);
    }
  }

  /** Six failures in a row are survived, backing off 3, 6, 9, 12, 15 and 18
      seconds; a seventh ends the loop; a success in between starts over. */
  lemma BackoffSchedule()
    ensures !HasFatalRun(AllFailed(6))
    ensures Delays(AllFailed(6)) == [3, 6, 9, 12, 15, 18]
    ensures HasFatalRun(AllFailed(7))
    ensures !HasFatalRun(AllFailed(3) + [true] + AllFailed(3))
  {
    FailureStreak(6);
    FailureStreak(7);
    FailureStreak(3);
    var a := AllFailed(3) + [true];
    FatalRunExtend(AllFailed(3), true);
    var b := a + [false];
    assert b[..|b| - 1] == a;
    FatalRunExtend(a, false);
    var c := b + [false];
    assert c[..|c| - 1] == b;
    FatalRunExtend(b, false);
    var d := c + [false];
    assert d[..|d| - 1] == c;
    FatalRunExtend(c, false);
    assert d == AllFailed(3) + [true] + AllFailed(3);
  }
}
