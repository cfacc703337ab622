# mailtweets — a Dafny model of the digest builder

`mailtweets.py` is a small Python 2 script. It reads the recent posts of one
account, or of the accounts listed in a username file, from a social-network
API. It turns every `https` word of a post into an HTML anchor, lays the
posts out as one HTML page, and mails that page. This project models the part
between the API and the mailer, and proves properties of it:

- **Link rendering** (`make_links_clickable`, module `Links`). A post is split
  on whitespace. Every word that starts with `https` is replaced, at the slot
  `list.index` finds, by `<a href='W' style='color: #404040'>W<a>`. The words
  are then re-joined with single spaces.
- **Per-account selection** (`get_last_n_tweets_of_user`, module `Fetch`).
  - The requested count is capped at 20.
  - An empty timeline is an error.
  - An account whose newest post is more than 24 hours old contributes an
    empty list.
  - Otherwise every fetched post is kept. A post is link-rendered when
    `https` occurs anywhere in it.
  - The result is a one-entry map keyed by the account's display name.
- **Username list and collection** (`get_usernames_from_file` and
  `get_all_tweets`, module `Usernames`).
  - The file is split into lines. An empty file stops the run. The list is
    cut to its first ten lines.
  - Each space-separated excluded name then removes its first occurrence.
  - The per-account maps are merged in list order, so the last write wins.
- **Page composition** (`construct_html_message`, module `Digest`). The page
  is a fixed header, then one section per account in ascending order of
  display name, then a fixed footer.
  - The i-th account's heading takes the i-th of ten colours.
  - The account's posts follow as paragraphs, each followed by `<hr>`, or a
    "no tweets" paragraph when it has none.
  - An eleventh account raises an index error.
- **The file-mode run** (module `Pipeline`): collect, then compose.

Python's built-ins that the core relies on are modelled in `Builtins`:
- `str.split()` and `unicode.split()`, with their two whitespace sets;
- `' '.join`;
- `in` on strings;
- `list.index`;
- `str.splitlines()`, which breaks at `\n`, `\r` and `\r\n` and keeps blank
  lines;
- the code-point order that `sorted` uses on strings.

The script's fatal conditions become values of `Outcomes.Result`:
- `NoUsernames` for the `sys.exit(1)` on an empty file;
- `EmptyTimeline(u)` for the `IndexError` on an empty timeline;
- `PaletteExhausted` for the `IndexError` on an eleventh colour.

Outside effects become parameters:
- the API becomes two functions: `nameOf` for `get_user(u).name`, and
  `timelineOf` for `user_timeline(u, count=n)`;
- the clock becomes `now`, in whole seconds;
- the username file becomes its text content.

In a few places the code behaves differently from what a reader of a
tweet-digest tool might expect. The model follows the code in each of them:
- **Exclusion order:** exclusions are applied after the list of usernames has
  been cut to ten, not before (`Usernames.ExclusionAfterCap`).
- **Blank lines:** a blank line of the file is kept as an (empty) username.
  Only a file with no lines at all stops the run.
- **Count bounds:** the requested count is only capped from above at 20. A
  count below 1 is passed on unchanged.
- **Errors abort:** an account with an empty timeline aborts the whole
  collection instead of being isolated (`Usernames.FirstFailureReported`).
- **Idempotence:** link rendering is idempotent, although every anchor contains its link twice
  (`Links.RenderedIdempotent`). Rendered anchors split into words of which
  none starts with `https`, so a second pass changes nothing.
- **Zero recent posts:** an account with no recent posts is still listed,
  with the "no tweets" paragraph.

## Model

| member | source | states |
|---|---|---|
| Links.MakeLinksClickable | mailtweets.py:71-89 | the text returned is the post's whitespace-separated words, each `https` word replaced by its anchor, joined by single spaces — also when the same link occurs several times, because `index` then finds the slot the loop is at |
| Links.FirstOccurrenceIsCurrent | mailtweets.py:84-87 | while the loop is at slot i, the first occurrence of the current `https` word in the partly rewritten list is slot i itself (earlier slots hold anchors, which never start with `https`) |
| Links.Anchor | mailtweets.py:87 | definition: the anchor element of line 87 for a link word, the word written as both the `href` value and the link text, closed by `<a>` as in the code |
| Links.RenderWord | mailtweets.py:85-87 | a rendered word never starts with `https`, and a word that does not start with `https` is kept unchanged; a link word becomes its anchor |
| Links.RenderWords | mailtweets.py:84-87 | definition: each word of the list rendered on its own, in place, so the list keeps its length and order |
| Links.Rendered | mailtweets.py:81-89 | definition: the words of the post (unicode whitespace), each rendered, joined by single spaces; the loop of `Links.MakeLinksClickable` is proved equal to it |
| Links.RenderStep | mailtweets.py:84-87 | overwriting the current `https` slot with its anchor advances the rendered prefix by one word; a word without the marker leaves the list as it is |
| Links.PiecesAreUnmarkedWords | mailtweets.py:87 | an anchor is four whitespace-free pieces joined by spaces, none of which starts with `https` |
| Links.WordsOfRendered | mailtweets.py:81-89 | splitting the rendered text again gives back its words, with each anchor split into its four pieces |
| Links.NoRawLinkRemains | mailtweets.py:81-89 | no whitespace-separated word of the rendered text starts with `https` |
| Links.RenderedIdempotent | mailtweets.py:81-89 | rendering a rendered text again changes nothing |
| Links.RenderedOfJoin | mailtweets.py:81-89 | for single-spaced words, rendering replaces each `https` word by its anchor and keeps the rest |
| Links.RenderedExample | mailtweets.py:81-89 | `see https://example.com now` renders as `see `, the anchor for `https://example.com`, then ` now` |
| Builtins.WordLength | mailtweets.py:81 | a split word runs up to the first whitespace character |
| Builtins.Words | mailtweets.py:81 | every word `split()` returns is non-empty and free of whitespace |
| Builtins.Join | mailtweets.py:89 | definition: `sep.join(parts)`, the parts with one separator between neighbours, the empty string for no parts |
| Builtins.StartsWith | mailtweets.py:85 | definition: `s.startswith(p)`, the first `len(p)` characters of `s` are `p` |
| Builtins.WordsOfJoin | mailtweets.py:81-89 | splitting words joined by single spaces gives back the same words |
| Builtins.JoinAppend | mailtweets.py:89 | joining two non-empty lists is joining each, with one separator between |
| Builtins.Contains | mailtweets.py:63 | `p in s` holds exactly when `p` starts at some position of `s` |
| Builtins.IndexOf | mailtweets.py:86 | `list.index` returns the first position holding the element |
| Builtins.SplitLines | mailtweets.py:129 | the lines hold no line break, and there are none exactly when the text is empty |
| Builtins.SplitLinesOfFile | mailtweets.py:129 | a text of lines, each ended by the same terminator, plus an unterminated last line, splits into exactly those lines, blank ones included |
| Builtins.SplitLinesCons | mailtweets.py:129 | a line and its terminator split off as one line, `\r\n` counting as one break |
| Builtins.LessEqTotal | mailtweets.py:204 | any two strings are ordered one way or the other |
| Builtins.LessEqAntisymmetric | mailtweets.py:204 | strings ordered both ways are equal |
| Builtins.LessEqTransitive | mailtweets.py:204 | the string order is transitive |
| Builtins.LessEq | mailtweets.py:204 | definition: the order `sorted` uses on display names, character by character, a proper prefix first |
| Fetch.CappedCount | mailtweets.py:49-52 | the count passed to the timeline is at most 20, equals the request when that is at most 20 and is 20 otherwise |
| Fetch.IsStale | mailtweets.py:56-59 | definition: the newest post was created strictly before `now` minus 24 hours |
| Fetch.PostText | mailtweets.py:63-66 | definition: a post is link-rendered when `"https"` occurs anywhere in it, and kept verbatim otherwise |
| Fetch.Selected | mailtweets.py:56-68 | a non-empty timeline selects nothing exactly when its newest post is stale, and otherwise one entry per fetched post |
| Fetch.UserTweets | mailtweets.py:54-68 | the account fails exactly when its timeline is empty, with that username as the error; otherwise it contributes one key, its display name |
| Fetch.GetLastNTweetsOfUser | mailtweets.py:33-68 | the loop returns the one-entry map of the account's selection, or the empty-timeline error |
| Fetch.CountAboveCapActsAsCap | mailtweets.py:49-54 | any count above 20 gives the same result as 20 |
| Fetch.StaleAccountIsEmpty | mailtweets.py:56-60 | an account whose newest post is older than 24 hours contributes an empty list, whatever its other posts |
| Fetch.ExactlyOneDayIsNotStale | mailtweets.py:57-59 | the window is strict: a newest post exactly 24 hours old keeps the account |
| Fetch.ActiveAccountKeepsAll | mailtweets.py:62-68 | an active account keeps every fetched post in timeline order, each link-rendered or verbatim, older posts further down included |
| Fetch.PlainPostVerbatim | mailtweets.py:63-66 | a post without `https` is kept unchanged |
| Fetch.MarkerInsideWordsNormalisesSpacing | mailtweets.py:63-64 | a post with `https` only inside words is still re-joined, so its whitespace collapses to single spaces |
| Fetch.WordsOccur | mailtweets.py:81 | each word split off a text occurs in it |
| Fetch.MarkedWordInText | mailtweets.py:63-85 | a word starting with `https` makes `"https" in text` true, so no such word reaches the digest unrendered |
| Fetch.NoRawLinkInEntry | mailtweets.py:62-68 | no word of a post's digest entry starts with `https` |
| Usernames.UsernamesFromFile | mailtweets.py:128-140 | an empty file is the `NoUsernames` error; otherwise the result is the first 1 to 10 lines of the file, all of them when there are at most 10 |
| Usernames.LoadFile | mailtweets.py:128-140 | a file made of given lines loads as exactly those lines, cut to the first ten |
| Usernames.Remove | mailtweets.py:110-111 | `list.remove` drops exactly one copy of the name and keeps the order of the rest |
| Usernames.ExcludeOne | mailtweets.py:110-111 | one turn of the exclusion loop drops one copy of the name when it is listed and nothing otherwise, keeping the order of the rest |
| Usernames.Excluded | mailtweets.py:108-111 | each excluded word takes away at most one username |
| Usernames.ExcludedRemovesOneEach | mailtweets.py:108-111 | after the exclusions, the usernames are the file's names minus one copy per excluded word, in their original order |
| Usernames.ExcludedAbsentNames | mailtweets.py:108-111 | excluded words that name no listed account change nothing |
| Usernames.ApplyExclusions | mailtweets.py:108-111 | the loop removes, in turn, the first occurrence of each excluded word that is present |
| Usernames.Collected | mailtweets.py:113-114 | the fold of `tweets.update` over the usernames can only fail with an empty-timeline error |
| Usernames.AllTweets | mailtweets.py:92-116 | a file-mode collection fails with `NoUsernames` exactly for an empty file, and with an empty-timeline error otherwise |
| Usernames.SubsequenceTransitive | mailtweets.py:108-111 | removals one after another still leave a subsequence of the original list |
| Usernames.GetAllTweets | mailtweets.py:92-116 | the loop returns the merge of the per-account maps, or the first error met |
| Usernames.FailureSticks | mailtweets.py:113-114 | once an account has failed, the later accounts do not change the outcome |
| Usernames.CollectedStep | mailtweets.py:113-114 | one more account either fails the collection or merges its map over the earlier ones |
| Usernames.CollectedKeys | mailtweets.py:113-116 | the merged map's keys are exactly the display names of the listed accounts |
| Usernames.CollectedLastWins | mailtweets.py:113-116 | a display name maps to the posts of the last account with that name |
| Usernames.CollectedFailsOnEmptyTimeline | mailtweets.py:113-114 | any listed account with an empty timeline fails the collection |
| Usernames.FirstFailureReported | mailtweets.py:113-114 | the error reported names the first listed account with an empty timeline |
| Usernames.DisplayNamesBound | mailtweets.py:113-116 | there are no more display names than accounts |
| Usernames.AtMostTenAccounts | mailtweets.py:106-116 | a file-mode collection holds at most ten accounts |
| Usernames.ExclusionAfterCap | mailtweets.py:106-111 | with more than ten lines, every account left after the exclusions is among the first ten lines, so an exclusion never brings in an eleventh |
| Digest.SortedKeys | mailtweets.py:204 | the keys listed once each, in ascending order |
| Digest.LeastExists | mailtweets.py:204 | a non-empty set of display names has a least one |
| Digest.AscendingUnique | mailtweets.py:204 | there is only one ascending listing of a set of keys |
| Digest.AscendingLength | mailtweets.py:204 | an ascending listing has one entry per key |
| Digest.FirstIsLeast | mailtweets.py:204 | an ascending listing starts with the least key |
| Digest.ListsTail | mailtweets.py:204 | after its first key, an ascending listing lists the remaining keys in ascending order |
| Digest.Heading | mailtweets.py:206-207 | definition: the `<h2>` heading of lines 206-207 with the colour and the display name filled in, the continued line keeping its indentation |
| Digest.Paragraph | mailtweets.py:215 | definition: the paragraph element of line 215 around one post |
| Digest.PostsHtml | mailtweets.py:214-216 | definition: for each post in order, its paragraph followed by `<hr>` |
| Digest.Section | mailtweets.py:206-216 | definition: an account's heading, then its posts' paragraphs, or the "no tweets" paragraph when it has none |
| Digest.Layout | mailtweets.py:203-218 | definition: the accounts in the given order, the i-th drawn in colour i, for any way of drawing one account |
| Digest.Sections | mailtweets.py:203-218 | definition: the layout of the accounts' sections in the given order, the i-th in colour i |
| Digest.Html | mailtweets.py:181-222 | composing succeeds exactly when there are at most ten accounts, and otherwise fails with `PaletteExhausted` |
| Digest.Document | mailtweets.py:193-222 | the page is the header, then the body, then the footer |
| Digest.HtmlInAscendingOrder | mailtweets.py:203-222 | the page holds the accounts' sections in ascending order, the i-th drawn in the i-th colour |
| Digest.ConstructHtmlMessage | mailtweets.py:181-222 | the loop over the keys, least first, builds the page of sorted sections, or fails on the eleventh account |
| Digest.AppendPosts | mailtweets.py:214-216 | the inner loop appends each post's paragraph and rule, in order |
| Digest.SectionStep | mailtweets.py:206-218 | one more heading plus its paragraphs, or the "no tweets" notice, extends the body by that account's section |
| Digest.SectionsSnoc | mailtweets.py:204-218 | one more account appends its section, in the next colour |
| Digest.SectionsPrefix | mailtweets.py:204-218 | the page body starts with the sections of the accounts before position i, then account i's section in colour i |
| Digest.PostsHtmlSnoc | mailtweets.py:214-216 | one more post appends its paragraph and rule |
| Digest.PostsHtmlAppend | mailtweets.py:214-216 | the paragraphs of two post lists are those of the first, then those of the second |
| Digest.SectionOfNoPosts | mailtweets.py:209-212 | an account without posts gets its heading and the "no tweets" paragraph |
| Digest.SectionOfOnePost | mailtweets.py:214-216 | an account with one post gets its heading, the post's paragraph and a rule |
| Digest.HtmlOfNoAccounts | mailtweets.py:201-222 | with no accounts the page is the header, the opening body tag and the footer |
| Digest.HtmlOfTwoAccounts | mailtweets.py:203-218 | two accounts are laid out in ascending order whatever order the map was built in, the first in the first colour |
| Digest.TwoSections | mailtweets.py:204-207 | two listed accounts get the first and second colours |
| Pipeline.FileDigest | mailtweets.py:279-286 | a file-mode run produces a page exactly when collection succeeds, and otherwise stops at `NoUsernames` or an empty timeline |
| Pipeline.FileModeFitsPalette | mailtweets.py:279-286 | a file-mode run never runs out of heading colours |
| Pipeline.CollectAndCompose | mailtweets.py:282-286 | collecting and then composing produces the file-mode page or its error |

## Left out

- API client and OAuth setup (`mailtweets.py:1-30`): credentials and network access are outside the model. The API enters only as the parameters `nameOf` and `timelineOf`.
- Lookup failures: `nameOf` and `timelineOf` are total functions, so a `get_user` failure or a network error is not modelled. Only the empty timeline, which the code turns into an `IndexError`, is an error.
- `mail_tweets` (`mailtweets.py:143-178`): sending mail over SMTP is I/O.
- Command line (`mailtweets.py:225-288`): argument parsing is left out, and so are the default count of 10, the single-account mode and the trend-topic listing. There the model has only the file-mode sequence of collecting and then composing (`Pipeline`). The call at line 275, which passes the exclusion string where the count belongs, is outside the model too.
- Console output: `print` and the message before `sys.exit` are left out. The exit itself is the `NoUsernames` error.
- Fetch.UserTweets: the clock is read once, as `now`. The code calls `datetime.now()` once per account. Times are whole seconds in one naive local time zone, with no sub-second precision and no time-zone handling.
- Encodings: byte strings and unicode strings are both sequences of characters. The file's bytes are not decoded, and there is no encoding step before mailing. The distinction matters in `split()`: the name list is a byte string and the post text is unicode, and the two use different whitespace sets (`Builtins.Kind`).
- Digest.SortedKeys: `sorted` is modelled by comparing display names code point by code point, which assumes a CPython 2 built with UCS-4 unicode strings. A UCS-2 build compares UTF-16 code units instead, so names with characters above U+FFFF can sort differently there. With unique keys the list part of each `(name, posts)` pair never takes part in the comparison.
- The anchor's closing tag is `<a>` in the code, not `</a>`. The model keeps it as written.
