/** The mention extractor: `findall` of the pattern `/?r/([A-Za-z0-9_]+)[^A-Za-z0-9_]`
    over a text, followed by lower-casing every captured name into a set.
    The pattern is written out as a left-to-right, non-overlapping scanner. */
module Extractor {
  import opened Wrappers
  import opened Text

  /** `[A-Za-z0-9_]`. */
  predicate NameChar(c: char)
  {
    'A' <= c <= 'Z' || 'a' <= c <= 'z' || '0' <= c <= '9' || c == '_'
  }

  /** The characters an extracted (lower-cased) name is made of: `[a-z0-9_]`. */
  predicate LowerNameChar(c: char)
  {
    'a' <= c <= 'z' || '0' <= c <= '9' || c == '_'
  }

  /** `str.lower()` restricted to what it does on ASCII. */
  function LowerChar(c: char): char
  {
    if 'A' <= c <= 'Z' then (c as int + 32) as char else c
  }

  function Lower(m: string): (r: string)
    ensures |r| == |m|
    ensures forall k :: 0 <= k < |m| ==> r[k] == LowerChar(m[k])
  {
    if m == [] then [] else [LowerChar(m[0])] + Lower(m[1..])
  }

  /** `set(m.lower() for m in ms)`. */
  function LowerAll(ms: seq<string>): (names: set<string>)
  {
    set m | m in ms :: Lower(m)
  }

  /** The end of the greedy run of name characters that starts at `i`. */
  function RunEnd(s: string, i: nat): (e: nat)
    requires i <= |s|
    ensures i <= e <= |s|
    ensures forall k :: i <= k < e ==> NameChar(s[k])
    ensures e == |s| || !NameChar(s[e])
    decreases |s| - i
  {
    if i < |s| && NameChar(s[i]) then RunEnd(s, i + 1) else i
  }

  /** Where the captured name begins when `/?r/` matches at `p`. The optional
      slash is tried first; leaving it out cannot help when `s[p]` is a slash,
      because then `s[p]` is not the `r`. */
  function NameStart(s: string, p: nat): Option<nat>
  {
    if p + 3 <= |s| && s[p] == '/' && s[p + 1] == 'r' && s[p + 2] == '/' then Some(p + 3)
    else if p + 2 <= |s| && s[p] == 'r' && s[p + 1] == '/' then Some(p + 2)
    else None
  }

  /** `name` occurs in `s` at `i` as a whole name: right after `r/`, and
      followed by a character that is not a name character. */
  ghost predicate IsMention(s: string, i: int, name: string)
  {
    2 <= i && |name| >= 1 && i + |name| < |s|
    && s[i - 2] == 'r' && s[i - 1] == '/'
    && s[i..i + |name|] == name
    && (forall k :: 0 <= k < |name| ==> NameChar(name[k]))
    && !NameChar(s[i + |name|])
  }

  /** `name` occurs as a whole name whose `r/` starts at or after `p`. */
  ghost predicate OccursFrom(s: string, p: int, name: string)
  {
    exists i :: p <= i - 2 && IsMention(s, i, name)
  }

  /** One match attempt: the captured group and the position just after the
      consumed terminating character. */
  datatype Match = Match(name: string, next: nat)

  function MatchAt(s: string, p: nat): (m: Option<Match>)
    requires p <= |s|
    ensures m.Some? ==> p < m.value.next <= |s|
  {
    match NameStart(s, p)
    case None => None
    case Some(start) =>
      var e := RunEnd(s, start);
      if start < e < |s| then Some(Match(s[start..e], e + 1)) else None
  }

  /** `findall` from position `p`: after a match the scan resumes at its end,
      otherwise one position further. */
  function FindAll(s: string, p: nat): seq<string>
    requires p <= |s|
    decreases |s| - p
  {
    if p == |s| then []
    else
      match MatchAt(s, p)
      case Some(m) => [m.name] + FindAll(s, m.next)
      case None => FindAll(s, p + 1)
  }

  /** The set of lower-cased names mentioned in `text`. */
  function Mentions(text: string): set<string>
  {
    LowerAll(FindAll(text, 0))
  }

  /** A successful match attempt at `p` captured a whole name whose `r/` starts at or after `p`. */
  lemma MatchAtSound(s: string, p: nat)
    requires p <= |s|
    ensures MatchAt(s, p).Some? ==>
      var m := MatchAt(s, p).value;
      p + 2 <= m.next - 1 - |m.name| && IsMention(s, m.next - 1 - |m.name|, m.name)
  {
  }

  /** Every name `findall` captures from `p` on occurs in the text as a whole name. */
  lemma {:induction false} FindAllSound(s: string, p: nat)
    requires p <= |s|
    ensures forall j :: 0 <= j < |FindAll(s, p)| ==> OccursFrom(s, p, FindAll(s, p)[j])
    decreases |s| - p
  {
    if p < |s| {
      MatchAtSound(s, p);
      match MatchAt(s, p)
      case Some(m) =>
        FindAllSound(s, m.next);
        assert OccursFrom(s, p, m.name);
      case None =>
        FindAllSound(s, p + 1);
        var rest := FindAll(s, p + 1);
        forall j | 0 <= j < |rest| ensures OccursFrom(s, p, rest[j]) {
          var i :| p + 1 <= i - 2 && IsMention(s, i, rest[j]);
        }
    }
  }

  /** Every extracted name is non-empty and made of `[a-z0-9_]`, and it is the
      lower-cased form of a whole name written after `r/` in the text and
      followed there by a non-name character, so never part of a longer name. */
  lemma MentionsSound(text: string)
    ensures forall n :: n in Mentions(text) ==>
      |n| >= 1 && forall k :: 0 <= k < |n| ==> LowerNameChar(n[k])
    ensures forall n :: n in Mentions(text) ==>
      exists i, m :: IsMention(text, i, m) && Lower(m) == n
  {
    FindAllSound(text, 0);
    var ms := FindAll(text, 0);
    forall n | n in Mentions(text)
      ensures |n| >= 1 && forall k :: 0 <= k < |n| ==> LowerNameChar(n[k])
      ensures exists i, m :: IsMention(text, i, m) && Lower(m) == n
    {
      var m :| m in ms && Lower(m) == n;
      var j :| 0 <= j < |ms| && ms[j] == m;
      assert OccursFrom(text, 0, ms[j]);
      var i :| 0 <= i - 2 && IsMention(text, i, m);
    }
  }

  /** No two extracted names differ only in case: every name is already in lower case. */
  lemma NoCaseVariants(text: string)
    ensures forall a, b :: a in Mentions(text) && b in Mentions(text) && Lower(a) == Lower(b) ==> a == b
  {
    MentionsSound(text);
    forall a | a in Mentions(text) ensures Lower(a) == a {
      assert forall k :: 0 <= k < |a| ==> LowerNameChar(a[k]);
    }
  }

  // Scanning is local: what is found from a position depends only on the text from there on.

  lemma {:induction false} RunEndShift(x: string, y: string, i: nat)
    requires i <= |y|
    ensures RunEnd(x + y, |x| + i) == |x| + RunEnd(y, i)
    decreases |y| - i
  {
    if i < |y| {
      assert (x + y)[|x| + i] == y[i];
      if NameChar(y[i]) {
        RunEndShift(x, y, i + 1);
      }
    }
  }

  lemma MatchAtShift(x: string, y: string, p: nat)
    requires p <= |y|
    ensures MatchAt(x + y, |x| + p).Some? == MatchAt(y, p).Some?
    ensures MatchAt(y, p).Some? ==>
      MatchAt(x + y, |x| + p) == Some(Match(MatchAt(y, p).value.name, |x| + MatchAt(y, p).value.next))
  {
    var s := x + y;
    assert forall k :: p <= k < |y| ==> s[|x| + k] == y[k];
    match NameStart(y, p)
    case None =>
    case Some(start) =>
      assert NameStart(s, |x| + p) == Some(|x| + start);
      RunEndShift(x, y, start);
      var e := RunEnd(y, start);
      assert s[|x| + start..|x| + e] == y[start..e];
  }

  lemma {:induction false} FindAllShift(x: string, y: string, p: nat)
    requires p <= |y|
    ensures FindAll(x + y, |x| + p) == FindAll(y, p)
    decreases |y| - p
  {
    if p < |y| {
      MatchAtShift(x, y, p);
      match MatchAt(y, p)
      case Some(m) => FindAllShift(x, y, m.next);
      case None => FindAllShift(x, y, p + 1);
    }
  }

  /** A character that can end a text without taking part in a match that
      crosses into whatever follows: neither a name character nor a slash. */
  predicate Boundary(c: char)
  {
    !NameChar(c) && c != '/'
  }

  lemma {:induction false} RunEndPrefix(x: string, y: string, i: nat)
    requires i <= |x| && RunEnd(x, i) < |x|
    ensures RunEnd(x + y, i) == RunEnd(x, i)
    decreases |x| - i
  {
    assert (x + y)[i] == x[i];
    if NameChar(x[i]) {
      RunEndPrefix(x, y, i + 1);
    }
  }

  lemma MatchAtPrefix(x: string, y: string, p: nat)
    requires |x| >= 1 && Boundary(x[|x| - 1]) && p < |x|
    ensures MatchAt(x + y, p) == MatchAt(x, p)
    ensures MatchAt(x, p).Some? ==> MatchAt(x, p).value.next <= |x|
  {
    var s := x + y;
    assert forall k :: 0 <= k < |x| ==> s[k] == x[k];
    assert NameStart(s, p) == NameStart(x, p);
    match NameStart(x, p)
    case None =>
    case Some(start) =>
      assert start < |x|;
      assert RunEnd(x, start) < |x|;
      RunEndPrefix(x, y, start);
      var e := RunEnd(x, start);
      assert s[start..e] == x[start..e];
  }

  lemma FindAllAtJoin(x: string, y: string)
    ensures FindAll(x + y, |x|) == FindAll(x, |x|) + FindAll(y, 0)
  {
    FindAllShift(x, y, 0);
    assert FindAll(x, |x|) == [];
  }

  lemma {:induction false} FindAllPrefix(x: string, y: string, p: nat)
    requires |x| >= 1 && Boundary(x[|x| - 1]) && p <= |x|
    ensures FindAll(x + y, p) == FindAll(x, p) + FindAll(y, 0)
    decreases |x| - p
  {
    if p == |x| {
      FindAllAtJoin(x, y);
    } else {
      MatchAtPrefix(x, y, p);
      var rest := FindAll(y, 0);
      match MatchAt(x, p)
      case Some(m) =>
        FindAllPrefix(x, y, m.next);
        assert [m.name] + (FindAll(x, m.next) + rest) == ([m.name] + FindAll(x, m.next)) + rest;
      case None =>
        FindAllPrefix(x, y, p + 1);
    }
  }

  /** When the first text ends in a boundary character, the mentions of the
      concatenation are exactly the mentions of the two texts. */
  lemma MentionsConcat(x: string, y: string)
    requires |x| >= 1 && Boundary(x[|x| - 1])
    ensures Mentions(x + y) == Mentions(x) + Mentions(y)
  {
    FindAllPrefix(x, y, 0);
    var a, b := FindAll(x, 0), FindAll(y, 0);
    assert forall m :: m in a + b <==> m in a || m in b;
  }

  /** A stretch without a lower-case `r`, not ending in a slash, can be skipped:
      no match can start inside it. */
  lemma {:induction false} SkipNoR(s: string, p: nat, q: nat)
    requires p <= q <= |s|
    requires forall k :: p <= k < q ==> s[k] != 'r'
    requires q > p ==> s[q - 1] != '/'
    ensures FindAll(s, p) == FindAll(s, q)
    decreases q - p
  {
    if p < q {
      assert MatchAt(s, p).None?;
      SkipNoR(s, p + 1, q);
    }
  }

  /** Without a lower-case `r` there is nothing to match. */
  lemma {:induction false} NoRNoMatch(s: string, p: nat)
    requires p <= |s|
    requires forall k :: p <= k < |s| ==> s[k] != 'r'
    ensures FindAll(s, p) == []
    decreases |s| - p
  {
    if p < |s| {
      assert MatchAt(s, p).None?;
      NoRNoMatch(s, p + 1);
    }
  }

  /** With no slash after `p`, nothing is matched from `p` on. */
  lemma {:induction false} NoSlashNoMatch(s: string, p: nat)
    requires p <= |s|
    requires forall k :: p < k < |s| ==> s[k] != '/'
    ensures FindAll(s, p) == []
    decreases |s| - p
  {
    if p < |s| {
      assert MatchAt(s, p).None?;
      NoSlashNoMatch(s, p + 1);
    }
  }

  lemma {:induction false} RunEndOfName(s: string, i: nat, e: nat)
    requires i <= e < |s|
    requires forall k :: i <= k < e ==> NameChar(s[k])
    requires !NameChar(s[e])
    ensures RunEnd(s, i) == e
    decreases e - i
  {
    if i < e {
      RunEndOfName(s, i + 1, e);
    }
  }

  predicate IsName(n: string)
  {
    |n| >= 1 && forall k :: 0 <= k < |n| ==> NameChar(n[k])
  }

  predicate NoLowerR(t: string)
  {
    forall k :: 0 <= k < |t| ==> t[k] != 'r'
  }

  /** `r/<n>` followed by a non-name character is one match. */
  lemma MatchOfMention(s: string, i: nat, n: string)
    requires IsName(n) && i + 2 + |n| < |s|
    requires s[i] == 'r' && s[i + 1] == '/' && s[i + 2..i + 2 + |n|] == n
    requires !NameChar(s[i + 2 + |n|])
    ensures MatchAt(s, i) == Some(Match(n, i + 3 + |n|))
  {
    assert forall k :: i + 2 <= k < i + 2 + |n| ==> s[k] == n[k - i - 2];
    RunEndOfName(s, i + 2, i + 2 + |n|);
  }

  /** The slash form: `/r/<n>` followed by a non-name character is matched
      at its leading `/`, and the scan resumes after that character. */
  lemma MatchOfSlashMention(s: string, i: nat, n: string)
    requires IsName(n) && i + 3 + |n| < |s|
    requires s[i] == '/' && s[i + 1] == 'r' && s[i + 2] == '/' && s[i + 3..i + 3 + |n|] == n
    requires !NameChar(s[i + 3 + |n|])
    ensures MatchAt(s, i) == Some(Match(n, i + 4 + |n|))
  {
    assert forall k :: i + 3 <= k < i + 3 + |n| ==> s[k] == n[k - i - 3];
    RunEndOfName(s, i + 3, i + 3 + |n|);
  }

  /** Completeness: a whole name preceded by `r/` or `/r/` is always
      reported when that prefix starts the text or follows a character that
      is neither a name character nor `/`. (A mention that begins inside an
      earlier match is consumed by it: in `r/r/abc ` only `r` is found.) */
  lemma MentionsComplete(s: string, i: nat, n: string)
    requires IsMention(s, i, n)
    requires i == 2 || Boundary(s[i - 3]) || (s[i - 3] == '/' && (i == 3 || Boundary(s[i - 4])))
    ensures Lower(n) in Mentions(s)
  {
    var start := if i == 2 || Boundary(s[i - 3]) then i - 2 else i - 3;
    var y := s[start..];
    if start == i - 2 {
      assert y[2..2 + |n|] == n;
      MatchOfMention(y, 0, n);
    } else {
      assert y[3..3 + |n|] == n;
      MatchOfSlashMention(y, 0, n);
    }
    assert n in FindAll(y, 0);
    if start > 0 {
      var x := s[..start];
      assert x + y == s;
      FindAllPrefix(x, y, 0);
    } else {
      assert y == s;
    }
  }

  /** `r/<n>` followed by a space, on its own, is exactly one mention. */
  lemma LoneMention(n: string)
    requires IsName(n)
    ensures Mentions("r/" + n + " ") == {Lower(n)}
  {
    var s := "r/" + n + " ";
    assert s[2..2 + |n|] == n;
    MatchOfMention(s, 0, n);
    assert FindAll(s, |s|) == [];
    assert FindAll(s, 0) == [n];
  }

  lemma NoRNoMentions(t: string)
    requires NoLowerR(t)
    ensures Mentions(t) == {}
  {
    NoRNoMatch(t, 0);
  }

  /** A text whose only lower-case `r` starts the mention `r/<n>` followed by a
      space yields exactly the lower-cased `n`; `R/...` elsewhere is ignored. */
  lemma SingleMention(a: string, n: string, c: string)
    requires NoLowerR(a) && NoLowerR(c) && |a| >= 1 && Boundary(a[|a| - 1])
    requires IsName(n)
    ensures Mentions(a + ("r/" + n + " ") + c) == {Lower(n)}
  {
    var m := "r/" + n + " ";
    assert Mentions(m + c) == {Lower(n)} by {
      LoneMention(n);
      NoRNoMentions(c);
      MentionsConcat(m, c);
    }
    assert a + m + c == a + (m + c);
    NoRNoMentions(a);
    MentionsConcat(a, m + c);
  }

  /** A mention at the very end of the text is never matched: the pattern
      needs one more character after the name. */
  lemma MentionAtEndIsLost(a: string, n: string)
    requires NoLowerR(a) && (|a| >= 1 ==> Boundary(a[|a| - 1]))
    requires IsName(n)
    ensures Mentions(a + ("r/" + n)) == {}
  {
    var s := a + ("r/" + n);
    var i := |a|;
    assert s[i] == 'r' && s[i + 1] == '/';
    assert forall k :: 0 <= k < |n| ==> s[i + 2 + k] == n[k];
    SkipNoR(s, 0, i);
    assert RunEnd(s, i + 2) == |s|;
    assert MatchAt(s, i).None?;
    NoSlashNoMatch(s, i + 1);
  }

  /** The case-folding scenario: `r/aww` is found, `R/AWW` is not a mention. */
  lemma CaseExample()
    ensures Mentions("check out " + ("r/" + "aww" + " ") + "and R/AWW too") == {"aww"}
  {
    SingleMention("check out ", "aww", "and R/AWW too");
    assert Lower("aww") == "aww";
  }

  /** The text `scan_post` scans: all comment bodies joined by single spaces. */
  function CommentText(bodies: seq<string>): string
  {
    Join(" ", bodies)
  }

  /** Mentions comment by comment: every comment except the last is followed
      by the joining space, which can terminate a mention at its very end. */
  function EachMentions(bodies: seq<string>): set<string>
  {
    if |bodies| == 0 then {}
    else if |bodies| == 1 then Mentions(bodies[0])
    else Mentions(bodies[0] + " ") + EachMentions(bodies[1..])
  }

  /** Joining with spaces never creates or destroys a mention across two
      comments: the mentions of the joined text are those of each comment,
      read with the separator that follows it. */
  lemma {:induction false} CommentTextMentions(bodies: seq<string>)
    ensures Mentions(CommentText(bodies)) == EachMentions(bodies)
  {
    if |bodies| >= 2 {
      CommentTextMentions(bodies[1..]);
      var x := bodies[0] + " ";
      assert Boundary(x[|x| - 1]);
      MentionsConcat(x, Join(" ", bodies[1..]));
    }
  }
}
