# findareddit directory bot, modelled in Dafny

The bot watches r/findareddit for subreddit names that people mention in
comments but that the subreddit's directory wiki page does not list yet. Each
pass of its main loop does the following:

1. Builds the registry of listed names from the directory page, and from the
   "newsubs" page when that is configured.
2. Fetches the newest posts in up to ten requests of up to a hundred posts.
3. Scans every post of the last 24 hours and extracts the `r/<name>` mentions
   from its joined comments.
4. Looks up each unlisted name and keeps it only if it is public and not
   quarantined.
5. Sends a private-message digest of the names it found.
6. Appends a dated table of those names, with their descriptions, to a wiki
   page.

A pass that raises is retried with a growing back-off, and the loop gives up
after seven failures in a row.

The model replaces the network client with plain inputs:

- each wiki page read, as a `Wrappers.Page`: its text, `Missing` (the read
  raised NotFound), or `Unreadable` (it raised anything else);
- the listing responses, as a sequence of pages of posts;
- the lookup of a name, as a function to `Validator.Lookup`;
- the description of a name, as a function to `Option<string>`;
- whether the message was delivered, as a flag.

Time is an integer number of seconds. Modules, in dependency order:

| module | models |
|---|---|
| `Wrappers` | `Option`, `Result`, the two kinds of uncaught exception the model distinguishes, and the outcome of a wiki page read |
| `Text` | Python's `sep.join`, `str.rstrip()`, `str.replace` and `'{}'.format(n)`; `Split` is not used by the bot and only serves to state the line structure of the texts it builds |
| `Extractor` | `wiki_regex.findall` and the lower-casing set comprehension, as a hand-written scanner |
| `Registry` | `get_wiki_subreddits` |
| `Validator` | `scan_post` |
| `Scan` | `scan_sub`: the fetch loop and the scan loop |
| `Report` | the message text of `send_pm` and the page text of `save_new_subs` |
| `Bot` | one pass of `main`'s loop and the failure counter with its back-off |

Behaviour the model takes from the code, where a reader might expect something else:

- The loop gives up on the seventh consecutive failure, not the sixth. The
  check `failed_attempts > 5` comes before the increment.
- Every exception is retried (`except Exception`), not only network errors.
- A name that was looked up and rejected in one post is looked up again in a
  later post. Only the names already accepted are remembered.
- A post created exactly at the cutoff is scanned. Only a strictly older post
  stops the scan.
- The newsubs page is appended to the directory text with no separator. So a
  directory page that ends in a mention can merge with the first word of the
  newsubs page (`Registry.RegistryMergesAcrossPages`).
- The fetch loop requests the newest hundred posts each time, with no cursor.
  If the newest page ends inside the window, the ten responses are ten copies
  of that page (`Scan.RefetchRepeatsNewest`).
- A failure while saving the table fails the whole pass, although the digest
  was already sent: `send_pm` (line 167) runs before `save_new_subs` (line
  169), whose page read (line 45) and description fetches (line 52) can
  raise. The loop then retries the pass and sends the digest again
  (`Bot.RunPass` returns the message it delivered even when it fails).

## Model

| member | source | states |
|---|---|---|
| Extractor.MatchAt | findaredditdirectory.py:26 | one attempt of the pattern at a position: `/r/` or `r/`, the greedy name, and one consumed non-name character; a successful attempt resumes the scan strictly later and within the text |
| Extractor.FindAll | findaredditdirectory.py:26 | `findall`: after a match the scan resumes past the consumed character, otherwise one position on; definition, no contract of its own (`FindAllSound`, `FindAllShift` state its properties) |
| Extractor.Mentions | findaredditdirectory.py:95-96 | the lower-cased set of `findall`'s names; definition, no contract of its own (`MentionsSound`, `MentionsComplete`, `NoCaseVariants`, `MentionsConcat` state its properties) |
| Extractor.RunEnd | findaredditdirectory.py:26 | the captured name is the greedy run of `[A-Za-z0-9_]`: all name characters, and ends at the end of the text or at a non-name character |
| Extractor.MatchAtSound | findaredditdirectory.py:26 | a match attempt at `p` that succeeds captured a whole name right after an `r/` at or after `p`, followed by a non-name character |
| Extractor.FindAllSound | findaredditdirectory.py:26 | every name `findall` captures from a position on occurs in the text as a whole mention after that position |
| Extractor.MentionsSound | findaredditdirectory.py:95-96 | every extracted name is non-empty and made of `[a-z0-9_]`, and is the lower-cased form of a maximal name written after `r/` and followed by a non-name character |
| Extractor.MentionsComplete | findaredditdirectory.py:26 | a whole name right after an `r/` or a `/r/` is always extracted, lower-cased, when that prefix starts the text or follows a character that is neither a name character nor `/` |
| Extractor.NoCaseVariants | findaredditdirectory.py:96 | no two extracted names differ only in case |
| Extractor.Lower | findaredditdirectory.py:96 | lower-casing keeps the length and lowers each character in place |
| Extractor.FindAllShift | findaredditdirectory.py:26 | scanning is local: what `findall` finds from a position depends only on the text from there on |
| Extractor.MentionsConcat | findaredditdirectory.py:26 | when the first text ends in a character that is neither a name character nor `/`, the mentions of the concatenation are the union of the mentions of the parts |
| Extractor.LoneMention | findaredditdirectory.py:26 | `r/<n> ` alone yields exactly the lower-cased `n` |
| Extractor.SingleMention | findaredditdirectory.py:26 | for a non-empty prefix with no lowercase `r` that ends in a character that is neither a name character nor `/`, then `r/<n> `, then a suffix with no lowercase `r`, the text yields exactly the lower-cased `n`; an upper-case `R/` is not a mention |
| Extractor.MentionAtEndIsLost | findaredditdirectory.py:26 | after a prefix with no lowercase `r` that is empty or ends in a character that is neither a name character nor `/`, an `r/<n>` that ends the text is not extracted, because the pattern needs one more character |
| Extractor.CaseExample | findaredditdirectory.py:26 | `check out r/aww and R/AWW too` yields exactly `aww` |
| Extractor.CommentTextMentions | findaredditdirectory.py:93-96 | joining comments with single spaces neither creates nor loses mentions across comments: the mentions of the joined text are those of each comment followed by its separator |
| Registry.WikiSubreddits | findaredditdirectory.py:73-81 | the registry of a readable directory page: the mentions of its text, with the newsubs text appended when it is consulted and present; definition, no contract of its own (`RegistryWellFormed`, `RegistryUnion`, `ListedNameInRegistry` state its properties) |
| Registry.GetWikiSubreddits | findaredditdirectory.py:73-83 | reading the registry fails exactly when the directory page cannot be read (missing or any other failure), or when the newsubs page is consulted and its read fails with anything but NotFound; a missing newsubs page is tolerated |
| Registry.ListedNameInRegistry | findaredditdirectory.py:73-83 | a name the directory page lists as `/r/<n>` between spaces is in the registry, whatever the newsubs page holds |
| Registry.RegistryWellFormed | findaredditdirectory.py:80-81 | every registry entry is a non-empty lower-case name |
| Registry.RegistryDirectoryOnly | findaredditdirectory.py:74-79 | with the newsubs page missing or not consulted, the registry is the directory page's mentions alone |
| Registry.RegistryUnion | findaredditdirectory.py:73-81 | when the directory text ends in a boundary character, the registry is the union of both pages' mentions |
| Registry.RegistryMergesAcrossPages | findaredditdirectory.py:76 | when the directory page is a non-empty prefix with no lowercase `r`, ending in a character that is neither a name character nor `/`, followed by `r/<n1>`, and the newsubs page is `<n2> ` then a suffix, where `n2` and the suffix have no lowercase `r`: appending with no separator merges the two into `n1n2`, and the directory's own last mention is lost |
| Validator.ScanPost | findaredditdirectory.py:86-126 | the method's result is the order-independent outcome `PostOutcome`. It only grows the accumulator. Every added name is mentioned in the post, not in the directory, public and not quarantined. Only names outside the directory and the accumulator are looked up, and on success all of them are. An uncaught lookup failure propagates |
| Validator.PostOutcomeGrows | findaredditdirectory.py:98-115 | the accumulator grows by exactly the accepted mentioned names outside the directory; its intersection with the directory is unchanged |
| Validator.PostOutcomeFails | findaredditdirectory.py:105-123 | while the accumulator holds only accepted names, a post raises exactly when one of its mentions outside the directory fails to look up with an error other than NotFound, Redirect, Forbidden or BadRequest |
| Validator.DirectoryNameSkipped | findaredditdirectory.py:99-101 | a directory name is skipped before lookup and only the new public name is added |
| Validator.NotFoundSkipped | findaredditdirectory.py:116-118 | a name whose lookup says NotFound is skipped and the scan goes on with the next name |
| Scan.FetchPosts | findaredditdirectory.py:133-141 | the fetch loop equals the function `Fetch`: append each response and stop once the last post is older than the cutoff; `posts[-1]` on nothing raises IndexError |
| Scan.FetchShape | findaredditdirectory.py:137-141 | the fetch fails exactly when the first response is empty; otherwise it returns the responses of the requests made, where every earlier request ended inside the window and the last one used ended outside it unless all ten were used; at most 1000 posts |
| Scan.RefetchRepeatsNewest | findaredditdirectory.py:138-139 | when every request returns the same newest page and it ends inside the window, the fetch returns ten copies of it and no other post |
| Scan.Window | findaredditdirectory.py:144-146 | the scanned posts are the longest prefix of posts created at or after the cutoff: a post exactly at the cutoff is scanned, and the post after the window is strictly older |
| Scan.ScanPostsOutcome | findaredditdirectory.py:144-147 | scanning the window fails exactly when some post mentions a name outside the registry whose lookup raises; otherwise the result is the accumulator plus every name some post contributes |
| Scan.ScanSub | findaredditdirectory.py:129-149 | the method's result is `ScanSubOutcome`: registry, fetch, then `scan_post` on each post of the window; a failed registry read, the empty fetch and an uncaught lookup failure propagate as exceptions |
| Scan.ScanSubReports | findaredditdirectory.py:129-149 | once the registry is read and the fetch succeeds, the reported names are exactly those some post in the window mentions that are outside the registry and accepted, and the scan fails exactly when such a mention's lookup raises |
| Scan.ScanSubExcludesRegistry | findaredditdirectory.py:135-147 | a reported name is never in the registry and always passed the public, not-quarantined test |
| Scan.ListedNameNeverReported | findaredditdirectory.py:129-149 | a name the directory page lists as `/r/<n>` between spaces is never reported |
| Report.Enumerate | findaredditdirectory.py:32 | iterating the set visits each member exactly once |
| Report.EnumerationCount | findaredditdirectory.py:33 | the number of names visited is `len(pm_subreddits)` |
| Report.PmText | findaredditdirectory.py:32-33 | the digest `PM_STRING.format(len, '\n\n* '.join(...))`; definition, no contract of its own (`DigestLines`, `HeaderCount` state its properties) |
| Text.Join | findaredditdirectory.py:32 | `sep.join`, also used at lines 58 and 93; definition, no contract of its own (`SplitJoin` states its property) |
| Report.Prefixed | findaredditdirectory.py:32 | each name becomes `/r/<name>`, in order |
| Report.Bullets | findaredditdirectory.py:21-24 | the digest lists one bullet `* /r/<name>` per name in order, with blank lines between them, or one empty bullet when there are none |
| Report.DigestLines | findaredditdirectory.py:21-33 | read line by line, the message is the header with the count, a blank line, the bullets and a final empty line |
| Report.HeaderCount | findaredditdirectory.py:21-33 | the count written into the header reads back as the number of names |
| Report.Header | findaredditdirectory.py:21 | the header is a single line |
| Text.DecimalRoundTrip | findaredditdirectory.py:33 | the decimal rendering of a count reads back as that count |
| Report.Row | findaredditdirectory.py:51-53 | a table row for a name without newlines is a single line |
| Text.ReplaceChar | findaredditdirectory.py:53 | replacing newlines by spaces keeps the length, changes only the newlines, and leaves no newline |
| Report.Rows | findaredditdirectory.py:50-54 | the rows exist exactly when every description can be fetched; then there is one row per name, in iteration order |
| Report.SaveNewSubs | findaredditdirectory.py:40-62 | the method's result is `SaveOutcome`: nothing to write when the page is missing, an exception when the page read fails otherwise or a description fetch fails, else the new page text |
| Text.RStrip | findaredditdirectory.py:57 | `rstrip()` keeps the longest prefix that does not end in whitespace; everything removed is whitespace |
| Report.NewSubsText | findaredditdirectory.py:56-59 | the new table page: the stripped old text, the dated heading and the rows joined by newlines; definition, no contract of its own (`NewSubsLines` states its property) |
| Report.HeadingLines | findaredditdirectory.py:57-58 | split into lines, the heading is two blank lines, the timestamp, a blank line, the table header and its rule |
| Text.SplitJoin | findaredditdirectory.py:59 | joining lines without newlines by `\n` and splitting again gives back exactly those lines |
| Report.NewSubsLines | findaredditdirectory.py:57-60 | the new text keeps the old text up to its trailing whitespace, and what follows reads back as the heading lines and then exactly the rows |
| Bot.RunPass | findaredditdirectory.py:165-173 | the digest is delivered exactly when the scan succeeds and the message can be sent, and it stays delivered even if saving the table then raises; a pass succeeds exactly when the scan succeeds, the message is delivered, and, when the table is saved, its page read fails at most with NotFound and, if the page exists, every description can be fetched; its message and table list the names found, in one iteration order |
| Bot.TrailingFailures | findaredditdirectory.py:173-181 | the failure counter is the number of failures since the last success |
| Bot.FatalRunExtend | findaredditdirectory.py:174-181 | one more pass completes seven failures in a row exactly when it fails after six |
| Bot.FatalRunPrefix | findaredditdirectory.py:174-179 | once seven failures in a row occurred, they remain in any longer history |
| Bot.DelaysBounded | findaredditdirectory.py:171-184 | until the loop gives up, every sleep is twelve hours after a success or 3 to 18 seconds after a failure |
| Bot.Run | findaredditdirectory.py:152-184 | the loop re-raises exactly when seven passes in a row fail, and it does so at the first such seventh failure, with the counter at 6. Otherwise the counter is the number of trailing failures, at most 6. The sleeps follow `Delays`. A failed login ends the program before the loop |
| Bot.FailureStreak | findaredditdirectory.py:176-184 | after `n` failures in a row the counter is `n`, the back-offs were 3, 6, …, 3n seconds, and the loop has given up exactly when `n` reached 7 |
| Bot.BackoffSchedule | findaredditdirectory.py:176-184 | six failures are survived with back-offs 3, 6, 9, 12, 15, 18; a seventh ends the loop; a success in between starts the count over |

## Left out

- The praw client and authentication are inputs: wiki reads and edits, listings, `replace_more`, `comments.list`, subreddit attribute lookups, `redditor().message`, and the login at lines 153-159 (a boolean). The outcome of a request is kept only where the code tells outcomes apart: the three wiki page reads (`Wrappers.Page`) and `scan_post`'s lookups (`Validator.Lookup`). Any exception that is not caught is one `Err`.
- Clocks and sleeping: `utcnow` becomes an integer clock, and the ISO timestamp becomes a string input. Sleeps are returned as delay values. Timestamps are compared as integer seconds.
- `print` logging is left out, including the misplaced `.format` in the BadRequest message at lines 122-123.
- The `re` engine is replaced by a scanner with the pattern's semantics (`Extractor.MatchAt`). Non-ASCII characters are not name characters, and lower-casing is modelled on ASCII only.
- Set iteration order is unspecified in Python. It is an explicit `order` that enumerates the set, chosen once per pass (`Report.Enumerate`). Both the digest and the table follow it.
- `scan_post` mutates the caller's set in place and returns that same object. The model passes the set by value and returns the grown set, so aliasing is not modelled.
- The listing responses are inputs, one page per request. Whether each request returns the same newest posts is not fixed; `Scan.RefetchRepeatsNewest` shows what happens when it does.
- Scan.ScanSub: the listing requests at line 139 and the comment fetches at lines 92-93 (`replace_more`, `comments.list`) never fail in the model. Their responses are plain inputs, so a pass that raises there is not represented.
- Scan.ScanSubReports: inherits this; its "fails exactly when" covers lookups only, after a successful registry read and fetch.
- Bot.RunPass: inherits the same gap; a listing or comment request that raises is not among the ways a pass fails.
- Bot.RunPass: does not model the failure of the wiki edit at lines 63-65. It is caught and only changes `save_new_subs`'s unused return value.
- Bot.Run: the infinite loop is run over a finite sequence of pass outcomes.
- The hard-coded save target `"CelinesWorkshop"` is the `workshop` page of `Bot.Site`.
- `constants.py` is not part of this model. The bot does not import it.
