/** What the bot does with the names a scan found: the private-message digest
    (`send_pm`) and the dated table appended to the new-subs wiki page
    (`save_new_subs`). Both iterate the set of names; `order` is that set in
    iteration order. */
module Report {
  import opened Wrappers
  import opened Text

  /** `order` lists the members of `names`, each exactly once. */
  ghost predicate Enumerates(order: seq<string>, names: set<string>)
  {
    (forall i, j :: 0 <= i < j < |order| ==> order[i] != order[j])
    && (forall n :: n in names <==> n in order)
  }

  /** Iterating a set visits each member once, in an order the language does
      not fix. */
  method Enumerate(names: set<string>) returns (order: seq<string>)
    ensures Enumerates(order, names)
  {
    order := [];
    var todo := names;
    while todo != {}
      invariant todo <= names
      invariant forall i, j :: 0 <= i < j < |order| ==> order[i] != order[j]
      invariant forall n :: n in order <==> n in names - todo
      decreases |todo|
    {
      var n :| n in todo;
      assert n !in order;
      order := order + [n];
      todo := todo - {n};
    }
  }

  /** `len(pm_subreddits)` is the length of any enumeration of the set. */
  lemma {:induction false} EnumerationCount(order: seq<string>, names: set<string>)
    requires Enumerates(order, names)
    ensures |order| == |names|
  {
    if order != [] {
      var last := order[|order| - 1];
      var rest := order[..|order| - 1];
      assert last !in rest by {
        forall i | 0 <= i < |rest|
          ensures rest[i] != last
        {
          assert rest[i] == order[i];
        }
      }
      forall n
        ensures n in names - {last} <==> n in rest
      {
        if n in order && n != last {
          var i :| 0 <= i < |order| && order[i] == n;
          assert i < |order| - 1;
          assert rest[i] == n;
        }
      }
      EnumerationCount(rest, names - {last});
    }
  }

  /** The text of `PM_STRING` around the count. */
  const CountIntro: string := "I found "
  const CountTail: string :=
    " subreddits mentioned" + " in the last" + " 24 hours" + " that aren't" + " in the" + " directory:"
  const TableHead: string := "Subreddit|||Description"
  const TableRule: string := "---|---|---|---"

  lemma TemplateLines()
    ensures '\n' !in CountIntro && '\n' !in CountTail
    ensures '\n' !in TableHead && '\n' !in TableRule
  {
  }

  /** The first line of the digest. */
  function Header(count: nat): (line: string)
    ensures '\n' !in line
  {
    TemplateLines();
    CountIntro + Decimal(count) + CountTail
  }

  /** `"/r/" + sub for sub in pm_subreddits`. */
  function Prefixed(order: seq<string>): (links: seq<string>)
    ensures |links| == |order|
    ensures forall i :: 0 <= i < |order| ==> links[i] == "/r/" + order[i]
  {
    if order == [] then [] else ["/r/" + order[0]] + Prefixed(order[1..])
  }

  /** The body of the private message: `PM_STRING` filled with the number of
      names and the links joined by a blank line and a bullet. */
  function PmText(order: seq<string>): string
  {
    Header(|order|) + "\n\n* " + Join("\n\n* ", Prefixed(order)) + "\n"
  }

  /** The bullet lines of the digest: one bullet per name, separated by blank
      lines, and a lone empty bullet when there are no names. */
  function Bullets(order: seq<string>): (lines: seq<string>)
    ensures order == [] ==> lines == ["* "]
    ensures order != [] ==> |lines| == 2 * |order| - 1
    ensures order != [] ==> forall i :: 0 <= i < |order| ==> lines[2 * i] == "* /r/" + order[i]
    ensures forall i :: 0 <= i < |order| - 1 ==> lines[2 * i + 1] == ""
  {
    if |order| <= 1 then (if order == [] then ["* "] else ["* /r/" + order[0]])
    else
      var rest := Bullets(order[1..]);
      assert forall i :: 1 <= i < |order| ==> rest[2 * (i - 1)] == "* /r/" + order[i];
      var lines := ["* /r/" + order[0], ""] + rest;
      forall i | 1 <= i < |order| - 1
        ensures lines[2 * i + 1] == ""
      {
        var k := i - 1;
        assert rest[2 * k + 1] == "";
      }
      lines
  }

  lemma {:induction false} BulletLines(order: seq<string>)
    requires forall i :: 0 <= i < |order| ==> '\n' !in order[i]
    ensures Split('\n', "* " + Join("\n\n* ", Prefixed(order)) + "\n") == Bullets(order) + [""]
  {
    var tail := "* " + Join("\n\n* ", Prefixed(order)) + "\n";
    if order == [] {
      assert tail == "* " + ['\n'] + "";
      SplitAfterPiece('\n', "* ", "");
    } else if |order| == 1 {
      assert Prefixed(order) == ["/r/" + order[0]];
      assert tail == ("* /r/" + order[0]) + ['\n'] + "";
      SplitAfterPiece('\n', "* /r/" + order[0], "");
    } else {
      var rest := "* " + Join("\n\n* ", Prefixed(order[1..])) + "\n";
      assert Prefixed(order)[1..] == Prefixed(order[1..]);
      assert tail == ("* /r/" + order[0]) + ['\n'] + ("" + ['\n'] + rest);
      BulletLines(order[1..]);
      SplitAfterPiece('\n', "", rest);
      SplitAfterPiece('\n', "* /r/" + order[0], "" + ['\n'] + rest);
    }
  }

  lemma SplitTwoLines(c: char, a: string, b: string, t: string)
    requires c !in a && c !in b
    ensures Split(c, a + [c] + (b + [c] + t)) == [a, b] + Split(c, t)
  {
    SplitAfterPiece(c, b, t);
    SplitAfterPiece(c, a, b + [c] + t);
  }

  lemma Regroup(header: string, links: string)
    ensures header + "\n\n* " + links + "\n" == header + ['\n'] + ("" + ['\n'] + ("* " + links + "\n"))
  {
  }

  /** Read line by line, the digest is the header with the count, a blank
      line, the bullets and a final empty line. */
  lemma {:induction false} DigestLinesAfter(header: string, order: seq<string>)
    requires '\n' !in header
    requires forall i :: 0 <= i < |order| ==> '\n' !in order[i]
    ensures Split('\n', header + "\n\n* " + Join("\n\n* ", Prefixed(order)) + "\n") == [header, ""] + Bullets(order) + [""]
  {
    var tail := "* " + Join("\n\n* ", Prefixed(order)) + "\n";
    Regroup(header, Join("\n\n* ", Prefixed(order)));
    BulletLines(order);
    SplitTwoLines('\n', header, "", tail);
  }

  lemma DigestLines(order: seq<string>)
    requires forall i :: 0 <= i < |order| ==> '\n' !in order[i]
    ensures Split('\n', PmText(order)) == [Header(|order|), ""] + Bullets(order) + [""]
  {
    DigestLinesAfter(Header(|order|), order);
  }

  /** The count in the header reads back as the number of names. */
  lemma HeaderCount(count: nat)
    ensures |Header(count)| >= 8 + |Decimal(count)|
    ensures ParseDecimal(Header(count)[8..8 + |Decimal(count)|]) == count
  {
    assert |CountIntro| == 8;
    assert Header(count)[8..8 + |Decimal(count)|] == Decimal(count);
    DecimalRoundTrip(count);
  }

  /** One table row: `/r/<name>|||<description with newlines as spaces>`. */
  function Row(name: string, description: string): (line: string)
    ensures '\n' !in name ==> '\n' !in line
  {
    "/r/" + name + "|||" + ReplaceChar(description, '\n', ' ')
  }

  /** The rows for the names in iteration order; a failing description lookup
      raises and so yields no rows. */
  function Rows(order: seq<string>, describe: string -> Option<string>): (rows: Option<seq<string>>)
    ensures rows.Some? <==> forall i :: 0 <= i < |order| ==> describe(order[i]).Some?
    ensures rows.Some? ==> |rows.value| == |order|
    ensures rows.Some? ==> forall i :: 0 <= i < |order| ==> rows.value[i] == Row(order[i], describe(order[i]).value)
  {
    if order == [] then Some([])
    else
      var last := order[|order| - 1];
      match Rows(order[..|order| - 1], describe)
      case None => None
      case Some(rows) =>
        match describe(last)
        case None => None
        case Some(d) => Some(rows + [Row(last, d)])
  }

  /** What `save_new_subs` adds after the old text before the rows: a blank
      line, the timestamp, a blank line, the table header and its rule. */
  function Heading(now: string): string
  {
    "\n\n" + now + "\n\n" + TableHead + "\n" + TableRule + "\n"
  }

  /** The new page text: the old text without trailing whitespace, the
      heading and the rows one per line. */
  function NewSubsText(wiki: string, now: string, rows: seq<string>): string
  {
    RStrip(wiki) + Heading(now) + Join("\n", rows)
  }

  /** `save_new_subs` as a function of what it reads: nothing to write when
      the page is missing (checked before any description is fetched), an
      exception when the page read fails otherwise or a description cannot be
      fetched, else the new text. */
  function SaveOutcome(page: Page, now: string, order: seq<string>,
                       describe: string -> Option<string>): Result<Option<string>>
  {
    match page
    case Missing => Ok(None)
    case Unreadable => Err(RequestFailed)
    case Present(wiki) =>
      match Rows(order, describe)
      case None => Err(RequestFailed)
      case Some(rows) => Ok(Some(NewSubsText(wiki, now, rows)))
  }

  /** `save_new_subs`: reads the page, builds one row per name, and appends a
      dated table to the old text. */
  method SaveNewSubs(page: Page, now: string, order: seq<string>, describe: string -> Option<string>)
    returns (r: Result<Option<string>>)
    ensures r == SaveOutcome(page, now, order, describe)
  {
    if page.Missing? {
      r := Ok(None);
      return;
    }
    if page.Unreadable? {
      r := Err(RequestFailed);
      return;
    }
    var lines: seq<string> := [];
    for i := 0 to |order|
      invariant Rows(order[..i], describe) == Some(lines)
    {
      assert order[..i + 1][..i] == order[..i];
      var description := describe(order[i]);
      if description.None? {
        r := Err(RequestFailed);
        return;
      }
      lines := lines + [Row(order[i], description.value)];
    }
    assert order[..|order|] == order;
    r := Ok(Some(NewSubsText(page.text, now, lines)));
  }

  lemma RegroupHeading(now: string, head: string, rule: string, body: string)
    ensures "\n\n" + now + "\n\n" + head + "\n" + rule + "\n" + body
      == "" + ['\n'] + ("" + ['\n'] + (now + ['\n'] + ("" + ['\n'] + (head + ['\n'] + (rule + ['\n'] + body)))))
  {
  }

  /** Split into lines, the heading is two blank lines, the timestamp, a blank
      line, the table header and its rule, followed by the lines after it. */
  lemma HeadingLines(now: string, body: string)
    requires '\n' !in now
    ensures Split('\n', Heading(now) + body) == ["", "", now, "", TableHead, TableRule] + Split('\n', body)
  {
    TemplateLines();
    RegroupHeading(now, TableHead, TableRule, body);
    var s5 := TableRule + ['\n'] + body;
    SplitAfterPiece('\n', TableRule, body);
    var s4 := TableHead + ['\n'] + s5;
    SplitAfterPiece('\n', TableHead, s5);
    var s3 := "" + ['\n'] + s4;
    SplitAfterPiece('\n', "", s4);
    var s2 := now + ['\n'] + s3;
    SplitAfterPiece('\n', now, s3);
    var s1 := "" + ['\n'] + s2;
    SplitAfterPiece('\n', "", s2);
    SplitAfterPiece('\n', "", s1);
    assert Heading(now) + body == "" + ['\n'] + s1;
  }

  /** The new text keeps the old text up to its trailing whitespace, and what
      follows it reads back, line by line, as two blank lines, the timestamp,
      a blank line, the table header and rule, and exactly the rows. */
  lemma NewSubsLines(wiki: string, now: string, rows: seq<string>)
    requires '\n' !in now
    requires forall i :: 0 <= i < |rows| ==> '\n' !in rows[i]
    ensures var text := NewSubsText(wiki, now, rows);
      |RStrip(wiki)| <= |text| && text[..|RStrip(wiki)|] == RStrip(wiki)
      && Split('\n', text[|RStrip(wiki)|..])
         == ["", "", now, "", TableHead, TableRule] + (if rows == [] then [""] else rows)
  {
    var body := Join("\n", rows);
    var added := Heading(now) + body;
    assert NewSubsText(wiki, now, rows) == RStrip(wiki) + added;
    assert (RStrip(wiki) + added)[|RStrip(wiki)|..] == added;
    if rows == [] {
      SplitNoSeparator('\n', body);
    } else {
      SplitJoin('\n', rows);
    }
    HeadingLines(now, body);
  }
}
