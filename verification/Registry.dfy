/** The registry builder (`get_wiki_subreddits`): the set of names the
    directory already lists, read from the directory wiki page and, when
    configured, the page of names found by earlier runs. */
module Registry {
  import opened Wrappers
  import opened Extractor

  /** The names mentioned on the directory page and, when `checkNewsubs` is
      set and that page exists, on the newsubs page appended to it with no
      separator. A newsubs page without text adds nothing. */
  function WikiSubreddits(directory: string, newsubs: Page, checkNewsubs: bool): set<string>
  {
    var text := if checkNewsubs && newsubs.Present? then directory + newsubs.text else directory;
    Mentions(text)
  }

  /** `get_wiki_subreddits`: any failure to read the directory page raises,
      and so does a failure to read the newsubs page other than its absence;
      neither is caught here. The newsubs page is read only when
      `checkNewsubs` is set. */
  function GetWikiSubreddits(directory: Page, newsubs: Page, checkNewsubs: bool): (r: Result<set<string>>)
    ensures r.Err? <==> !directory.Present? || (checkNewsubs && newsubs.Unreadable?)
  {
    match directory
    case Present(text) =>
      if checkNewsubs && newsubs.Unreadable? then Err(RequestFailed)
      else Ok(WikiSubreddits(text, newsubs, checkNewsubs))
    case _ => Err(RequestFailed)
  }

  /** Every registry entry is a lower-case name written after `r/` on one of the pages. */
  lemma RegistryWellFormed(directory: string, newsubs: Page, checkNewsubs: bool)
    ensures forall n :: n in WikiSubreddits(directory, newsubs, checkNewsubs) ==>
      |n| >= 1 && forall k :: 0 <= k < |n| ==> LowerNameChar(n[k])
  {
    var text := if checkNewsubs && newsubs.Present? then directory + newsubs.text else directory;
    MentionsSound(text);
  }

  /** A name the directory page lists as `/r/<n>` between spaces is in the
      registry, whatever the newsubs page holds. */
  lemma ListedNameInRegistry(a: string, n: string, c: string, newsubs: Page, checkNewsubs: bool)
    requires IsName(n)
    ensures Lower(n) in WikiSubreddits(a + " /r/" + n + " " + c, newsubs, checkNewsubs)
  {
    var directory := a + " /r/" + n + " " + c;
    var text := if checkNewsubs && newsubs.Present? then directory + newsubs.text else directory;
    var i := |a| + 4;
    assert text[i..i + |n|] == n;
    assert text[i + |n|] == ' ';
    MentionsComplete(text, i, n);
  }

  /** With the newsubs page missing or not consulted, the registry is the
      directory page's mentions alone. */
  lemma RegistryDirectoryOnly(directory: string, newsubs: Page, checkNewsubs: bool)
    requires !checkNewsubs || newsubs.Missing?
    ensures WikiSubreddits(directory, newsubs, checkNewsubs) == Mentions(directory)
  {
  }

  /** When the directory text ends in a character that cannot continue a
      mention (neither a name character nor a slash), the registry is the
      union of the two pages' mentions. */
  lemma RegistryUnion(directory: string, newsubs: string)
    requires |directory| >= 1 && Boundary(directory[|directory| - 1])
    ensures WikiSubreddits(directory, Present(newsubs), true) == Mentions(directory) + Mentions(newsubs)
  {
    MentionsConcat(directory, newsubs);
  }

  /** Because the pages are appended with no separator, a directory page that
      ends in `r/<n1>` and a newsubs page that starts with `<n2> ` yield the
      merged name `n1n2`, which neither page mentions on its own, while the
      directory's last mention is lost. */
  lemma RegistryMergesAcrossPages(a: string, n1: string, n2: string, c: string)
    requires NoLowerR(a) && NoLowerR(n2) && NoLowerR(c) && |a| >= 1 && Boundary(a[|a| - 1])
    requires IsName(n1) && IsName(n2)
    ensures WikiSubreddits(a + ("r/" + n1), Present(n2 + " " + c), true) == {Lower(n1 + n2)}
    ensures Mentions(a + ("r/" + n1)) == {}
  {
    var n := n1 + n2;
    assert IsName(n) by {
      assert forall k :: 0 <= k < |n| ==> n[k] == if k < |n1| then n1[k] else n2[k - |n1|];
    }
    assert (a + ("r/" + n1)) + (n2 + " " + c) == a + ("r/" + n + " ") + c;
    SingleMention(a, n, c);
    MentionAtEndIsLost(a, n1);
  }
}
