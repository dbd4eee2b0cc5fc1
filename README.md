# Log server: store, tail protocol and page script, in Dafny

The log server collects text logs posted by game clients, keyed by commit and
player, and shows them on one web page per (commit, player) pair. The page
script polls `/logs/<commit>/<player>/new?after=<k>`, where `k` is the number
of log elements the page already shows. The reply is a run of `<pre>`
fragments, which the script appends. The repository has two revisions of the
server (`server/` and `server/source/`). Each revision is modelled on its own
terms:

- `LogTable`: the `logs` table both stores share. Rows are kept in `id` order.
  It models the `where` filter, `offset`/`limit` paging and the filtered
  delete.
- `ServerDb` (server/db.ts) and `SourceDb` (server/source/db.ts): each store is
  a class holding the rows. The server/db.ts store also holds the `devices`
  table. Inserts, deletes and the device upsert are methods. The paged read
  and the listings are functions of the rows.
- `Listing`: lodash `uniqBy`/`uniq`/`reverse` and SQL `ORDER BY created_at`,
  which together build the commit and player listings.
- `Routes` (server/server.ts) models these handlers:
  - the message classifier and `html`;
  - the tail reply and its "no new logs" sentinel;
  - the player page and its placeholder;
  - the 0 / 1 / many player listing;
  - the `makeSafe` angle-bracket pre-pass;
  - the POST and debug ingestion;
  - the delete reply.
- `SourceRoutes` (server/source/server.ts) models this revision's own pieces:
  - the `<X:Y>` pre-pass of `makeSafe`;
  - the `#branch_unknown` default;
  - the 204 reply on an empty `/logs` listing;
  - the tail reply over its own store;
  - the delete handler.
- `Client` (server/public/index.js, server/source/public/index.js) models the
  page script:
  - a `LogView` class holding `<main>`'s children, the URL hash, the filter,
    the order checkbox and `localStorage`;
  - the `query` poll tick, `filterLogs`, `setDisplayOrder` and the order
    restore at load;
  - `updateDevice`'s name sanitiser.
- `Migration` (server/scripts/moveJsonIntoDatabase.ts): flattening the
  `{commit: {player: [message]}}` dump into rows, and `_.chunk(…, 50)`.
- `Logger` (server/source/common/logger.ts): the `intArrayToString` loop.
- `Session` puts three pieces together: the store's paged read, the tail
  reply and the script's poll. It proves that a page that starts in step with
  its thread stays in step whatever rows are added and whenever it polls. It
  never shows a message twice and never skips one. The thread of a pair is
  its messages in table order. Session also exhibits how the as-written
  placeholder breaks this (see Findings).

Outside inputs are parameters:
- timestamps (`now`);
- `sanitizeHtml`;
- the browser's HTML parser (`parse`);
- the server's JSON reply to a poll (`fetch`).

The one assumption made about the parser is `Session.ParsesFragments`. It
says that a non-empty run of `<pre>` fragments that `html` builds from
escaped messages (messages holding no `<`) becomes one child per fragment,
whose text is the fragment's message. Stored messages are escaped:
`makeSafe` replaces every `<` before sanitising (`Routes.MakeSafeEscapes`).
The assumption can be met, because on escaped messages `html` loses
nothing (`Routes.HtmlInjective`, `Session.ParserExists`). Without the
restriction it could not: the messages `"\n"` and `"<br>"` give the same
fragment.

## Model

| member | source | states |
|---|---|---|
| Text.ContainsOccurs | server/public/index.js:29 | `includes` holds exactly when the substring occurs at some position |
| Text.ReplaceFirstSplits | server/server.ts:100 | `replace('\n', '<br>')` with a string pattern replaces only the first newline; the text before it and everything after it, later newlines included, are kept; no newline leaves the message unchanged |
| Text.TrimKeepsMiddle | server/server.ts:133 | `trim()` keeps one contiguous run of the body, drops only white space around it, leaves no white space at either end, and maps all-white-space to "" |
| LogTable.WhereAppend | server/db.ts:92 | filtering an extended table filters the old part and the new part separately, in order |
| LogTable.ThreadAppend | server/db.ts:78-88 | appending rows appends their messages of a pair, in order, to the pair's thread |
| LogTable.ReadMessagesIsSlice | server/db.ts:90-98 | the paged read is the thread's slice `[after, min(after + 500, n))`, empty once `after >= n` |
| LogTable.WithoutKeepsOthers | server/db.ts:125 | `where({commit, player}).delete()` leaves no row of that pair and every other pair's rows exactly as before, in order |
| LogTable.WithoutKeepsIdOrder | server/db.ts:125 | a delete keeps the surviving rows' ids and relative order |
| Listing.UniqByDistinct | server/db.ts:109 | no two elements kept by `uniqBy` share a key |
| Listing.UniqByCovers | server/db.ts:109 | every key of the input survives `uniqBy` |
| Listing.UniqByKeepsFirst | server/db.ts:109 | each kept element is the first input element with its key, and kept elements follow first-occurrence order |
| Listing.UniqBySubset | server/db.ts:120 | `uniqBy` keeps only input elements |
| Listing.SortByTime | server/db.ts:105 | `ORDER BY created_at` yields an ordered permutation of its input |
| Listing.ReverseFlipsOrder | server/db.ts:110 | `reverse` of an ascending listing is descending |
| Listing.UniqSpec | server/source/db.ts:62-77 | `uniq` has no duplicates, holds exactly the input's elements, in first-occurrence order |
| Listing.UniqByNameKeepsOrder | server/db.ts:116-120 | `uniqBy` on a time-ordered listing keeps the order |
| Listing.UniqByNameKeepsExtreme | server/db.ts:105-109 | on time-ordered input, the entry kept for a name is the earliest (ascending) or latest (descending) of that name |
| Listing.ListedNamesDistinct | server/db.ts:104-109 | the listing pipeline lists no name twice |
| Listing.ListedCovers | server/db.ts:104-109 | every name of the input is listed |
| Listing.ListedFromPairs | server/db.ts:104-109 | every listed entry is one of the selected (name, created_at) pairs |
| Listing.ListedExtreme | server/db.ts:104-109 | a name's listed entry comes first in sort order among that name's pairs |
| Listing.ListedOrdered | server/db.ts:114-120 | the listing keeps the sort order |
| ServerDb.UpsertSpec | server/db.ts:137-155 | the upsert keeps hardware ids unique, names the id, leaves every other id's name alone, and adds a device only for an unknown id |
| ServerDb.UnknownHasNoName | server/db.ts:161-168 | an unknown hardware id has name `''` |
| ServerDb.RenamedLookup | server/db.ts:144-148 | `update({name})` renames exactly the known id |
| ServerDb.AppendedLookup | server/db.ts:150-153 | inserting a device names only the new id and leaves known ids' names |
| ServerDb.FirstNameFound | server/db.ts:161-168 | with unique ids the lookup returns that device's name |
| ServerDb.LogStore.constructor | server/db.ts:47-68 | both tables start empty |
| ServerDb.LogStore.AddLog | server/db.ts:78-84 | one row appended, the others unchanged; the pair's thread grows by exactly the message; every other thread and the devices are unchanged |
| ServerDb.LogStore.AddLogs | server/db.ts:86-88 | the list is appended after the existing rows in list order; each thread grows by that pair's messages of the list |
| ServerDb.LogStore.GetLogMessages | server/db.ts:90-98 | at most 500 messages; the thread's slice starting at `after`; empty once `after` reaches its length |
| ServerDb.LogStore.GetListOfCommits | server/db.ts:100-111 | every commit of the table exactly once, with its earliest `created_at`, newest first |
| ServerDb.LogStore.GetListOfPlayers | server/db.ts:113-121 | every player with a row on the commit exactly once, with its latest `created_at`, newest first |
| ServerDb.LogStore.DeleteLogs | server/db.ts:123-130 | with a player (and commit) exactly that pair's rows go, every other thread is unchanged; with neither argument nothing changes and the result is `undefined` |
| ServerDb.LogStore.UpdateDevice | server/db.ts:137-155 | afterwards the id's name is the new name, every other id keeps its name, ids stay unique, the logs are unchanged |
| ServerDb.LogStore.GetDevices | server/db.ts:157-159 | the devices, one per hardware id |
| ServerDb.LogStore.GetDeviceName | server/db.ts:161-168 | the id's stored name, or `''` for an unknown id |
| ServerDb.CommitsDistinctAndOrdered | server/db.ts:103-111 | the commit listing has distinct commits, newest first |
| ServerDb.CommitsCoverRows | server/db.ts:103-111 | every commit of the table is listed |
| ServerDb.CommitsEarliest | server/db.ts:103-111 | each listed commit carries its earliest `created_at`, taken from one of its rows |
| ServerDb.PlayersDistinctAndOrdered | server/db.ts:113-121 | the player listing has distinct players, newest first |
| ServerDb.PlayersCoverRows | server/db.ts:113-121 | every player with a row on the commit is listed |
| ServerDb.PlayersLatest | server/db.ts:113-121 | each listed player carries its latest `created_at` on the commit |
| ServerDb.ReversedListing | server/db.ts:110 | `reverse` keeps the entries, the names and their distinctness |
| SourceDb.Players | server/source/db.ts:70-76 | the mapped players are exactly those with a row on the commit |
| SourceDb.LogStore.constructor | server/source/db.ts:23-38 | the table starts empty |
| SourceDb.LogStore.AddLog | server/source/db.ts:40-46 | one row appended; only the pair's thread changes, by exactly the message |
| SourceDb.LogStore.AddLogs | server/source/db.ts:48-50 | all rows appended after the existing ones in list order; each thread grows by that pair's messages |
| SourceDb.LogStore.GetLogMessages | server/source/db.ts:52-60 | at most 500 messages; the thread's slice from `after`; empty once `after >= n` |
| SourceDb.LogStore.GetListOfCommits | server/source/db.ts:62-68 | no duplicates, exactly the table's commits, in first-occurrence row order |
| SourceDb.LogStore.GetListOfPlayers | server/source/db.ts:70-77 | no duplicates, exactly the players with a row on the commit, in first-occurrence order |
| SourceDb.LogStore.DeleteLogs | server/source/db.ts:79-86 | with a player (and commit) exactly that pair's rows go; with neither argument the table is unchanged |
| Routes.WordRunEnd | server/server.ts:98 | the end of the `\w+` run starting at `i`: every character before it is a word character, the one at it is not |
| Routes.MatchAtIsTagAt | server/server.ts:98 | the matcher at position `i` finds tag `t` exactly when `"  [" + t + "] "` occurs there with `t` a non-empty word |
| Routes.FindTagLeftmost | server/server.ts:98 | the scan finds the leftmost `"  [\w+] "` match, and finds none when there is none |
| Routes.ClassNameIsLeftmostTag | server/server.ts:97-99 | the class is the leftmost tag lowercased, `"unknown"` when there is none, and always non-empty `[a-z0-9_]` |
| Routes.ConcatAppend | server/server.ts:216 | concatenation distributes over appending |
| Routes.HtmlAppend | server/server.ts:215-217 | `html(a + b) == html(a) + html(b)` |
| Routes.HtmlIsConcat | server/server.ts:215-217 | `html` is the in-order concatenation of one fragment per item (and "" for none) |
| Routes.TailReplyShape | server/server.ts:85-106 | the reply is `{error: 'No new logs m8'}` exactly when the store returns nothing; otherwise its html is one fragment per message in store order, never empty |
| Routes.BodyOnlyBreaks | server/server.ts:100 | in the body of an escaped message's fragment, the only `<` is the `<br>` that replaced the first newline |
| Routes.BodyInjective | server/server.ts:100 | `replace('\n', '<br>')` maps distinct escaped messages to distinct bodies |
| Routes.FragmentShape | server/server.ts:97-101 | an escaped message's fragment is its opening tag, which holds no `>`, then `>`, the body and `</pre>` |
| Routes.FragmentPrefix | server/server.ts:97-101 | a fragment of an escaped message, at the front of a text, determines the message and the text after it |
| Routes.FragmentsInjective | server/server.ts:95-101 | distinct runs of escaped messages give distinct runs of fragments |
| Routes.HtmlInjective | server/server.ts:215-217 | distinct runs of escaped messages give distinct `html`: the html determines its messages, in order |
| Routes.PlayerPageContent | server/server.ts:108-129 | an empty page holds exactly the `No logs for player <p> yet` fragment; otherwise one fragment per message |
| Routes.ListLinksAsWrittenIgnoresCommits | server/server.ts:18-30 | as written, the commit page depends only on the number of commits (see Findings) |
| Routes.ListLinksShape | server/server.ts:18-30 | as written and corrected alike: no commits gives the text reply `There are no logs for any commit`; otherwise one link per commit, in listing order; corrected, each link leads to `/logs/<commit>` (see Findings) |
| Routes.ListPlayersAsWrittenRedirect | server/server.ts:50-53 | as written, the single-player redirect goes to `/logs/<commit>/[object Object]`, never to the player (see Findings) |
| Routes.ListPlayersRule | server/source/server.ts:34-57 | 0 players give the empty notice; a redirect exactly when there is 1, to `/logs/<commit>/<player>`; 2 or more give one link per player in order |
| Routes.ReplaceAllSpec | server/server.ts:274-275 | global one-character replace: the character is gone, others not introduced, identity without it, length grows by the expansion |
| Routes.EscapeAnglesSpec | server/server.ts:272-276 | after the pre-escape there is no `<` or `>`; a string without them is unchanged; each bracket adds 3 characters |
| Routes.CountAfterReplace | server/server.ts:275 | replacing `<` keeps the count of `>` |
| Routes.MakeSafeEscapes | server/server.ts:272-276 | whatever the user sends, `makeSafe` returns text with no `<`, as long as `sanitizeHtml` adds none |
| Routes.PostLog | server/server.ts:132-141 | the trimmed, made-safe body is appended as one row of the pair; reply `OK` |
| Routes.DebugAddLog | server/server.ts:170-178 | the made-safe path message (untrimmed) is appended as one row; reply `OK` |
| Routes.DeleteReplyCases | server/server.ts:285-293 | the player message exactly when both are set, the commit message exactly when only the commit is, else `Must specify a commit or player for logs to delete` |
| Routes.DeleteLogs | server/server.ts:280-294 | the store delete, then the reply choice |
| SourceRoutes.TagRunEnd | server/source/server.ts:316 | the end of the `[\w._\- ]+` run starting at `i` |
| SourceRoutes.ColonTagEndSound | server/source/server.ts:316 | a tag the matcher finds at the front is a `<X:Y>` run of the reference reading |
| SourceRoutes.ColonTagEndComplete | server/source/server.ts:316 | every `<X:Y>` at the front is found, with its length |
| SourceRoutes.ColonTagShift | server/source/server.ts:316 | tags of a suffix are tags of the whole string shifted, and back |
| SourceRoutes.EscapeColonTagsRewrites | server/source/server.ts:316 | a `<X:Y>` at the scan position becomes `&lt;X:Y&gt;` and the scan resumes after it |
| SourceRoutes.EscapeColonTagsNoMatch | server/source/server.ts:316 | text with no `<X:Y>` run (`<b>`, `<a:b:c>`) is unchanged |
| SourceRoutes.EscapeColonTagsCopies | server/source/server.ts:316 | where the output holds no `&`, it copies the input |
| SourceRoutes.EscapeColonTagsCopiesFront | server/source/server.ts:316 | up to the first position where a `<X:Y>` starts, the output copies the input, `&` included; from there it is the rewrite of the rest |
| SourceRoutes.EscapeColonTagsComplete | server/source/server.ts:316 | no `<X:Y>` run is left in the output |
| SourceRoutes.Branch | server/source/server.ts:140 | the branch query when given, else `#branch_unknown` |
| SourceRoutes.PostedLog | server/source/server.ts:137-147 | the stored log carries the branch (default `#branch_unknown`), commit, player and the made-safe trimmed body |
| SourceRoutes.DebugLog | server/source/server.ts:176-185 | the debug log carries the branch (default `#branch_unknown`) and the made-safe path message |
| SourceRoutes.LogsIndexSpec | server/source/server.ts:70-79 | 204 with no body exactly when the listing is empty, otherwise the listing unchanged |
| SourceRoutes.NewLogsReplyShape | server/source/server.ts:84-111 | the sentinel exactly when `after` reaches the end of the thread; otherwise one fragment per message of the next page, in order |
| SourceRoutes.DeleteLogs | server/source/server.ts:321-335 | the store delete, then the same three-way reply |
| Client.ShownSpec | server/public/index.js:26-31 | an element is shown iff its lowercased text contains the lowercased filter; the empty filter shows everything |
| Client.Texts | server/public/index.js:80 | one text per child, in order |
| Client.LogView.constructor | server/public/index.js:1-5 | the page as loaded, unreversed |
| Client.LogView.FilterLogs | server/public/index.js:26-31 | every child's display is set from the filter test on its text; texts and all else unchanged |
| Client.LogView.SetDisplayOrder | server/public/index.js:33-43 | `reversed` iff `r`; `String(r)` stored under `flipOrder` |
| Client.LogView.Restore | server/source/public/index.js:7-11 | reversed and checked at load only when the stored value is exactly `'true'` |
| Client.LogView.OnFilterChange | server/public/index.js:14-17 | the filter is stored and applied to every child |
| Client.LogView.OnFlipChange | server/public/index.js:18-20 | the checkbox value sets the order and is stored |
| Client.LogView.Query | server/public/index.js:74-93 | paused: nothing requested, nothing changes; active: `after` is the child count, the reply's texts are appended only when it carries html, and the filter is re-applied; the next tick is `interval` later |
| Client.KeepNameCharsSpec | server/public/index.js:53 | `/[^a-z0-9_-]/gi` removal leaves only name characters, never lengthens, and is the identity on name characters |
| Client.SafeNameSpec | server/public/index.js:53 | the name sent has at most 100 name characters, is idempotent, and is unchanged when already safe |
| Client.HexDigit | server/public/index.js:53 | percent-encoding digits are `0-9A-F` |
| Client.Utf8 | server/public/index.js:53 | 1 to 4 bytes, one exactly for ASCII |
| Client.EncodeUnreserved | server/public/index.js:53 | `encodeURIComponent` is the identity on unreserved characters |
| Client.DeviceRequestSpec | server/public/index.js:45-55 | no request for a falsy name; otherwise the URL carries the sanitised name unchanged by the encoding |
| Migration.LogObjs | server/scripts/moveJsonIntoDatabase.ts:29 | one row `{commit, player, message}` per message, in order |
| Migration.FlattenAppend | server/scripts/moveJsonIntoDatabase.ts:30 | joining chunks distributes over appending |
| Migration.ChunkSizes | server/scripts/moveJsonIntoDatabase.ts:30 | every chunk holds 1 to n rows, all but the last exactly n |
| Migration.ChunkCount | server/scripts/moveJsonIntoDatabase.ts:30 | ceil(len / 50) chunks; none exactly for no rows |
| Migration.ChunkFlatten | server/scripts/moveJsonIntoDatabase.ts:30 | joining the chunks gives back the rows in order |
| Migration.PlayerChunksSpec | server/scripts/moveJsonIntoDatabase.ts:28-37 | a player's chunks: 1 to 50 rows each, all but the last 50, ceil(n / 50) of them, none for no messages, joined they are the player's rows in message order |
| Migration.CommitChunksRows | server/scripts/moveJsonIntoDatabase.ts:26-41 | a commit's chunks join to its rows, one per message |
| Migration.AllChunksRows | server/scripts/moveJsonIntoDatabase.ts:24-44 | all chunks join to the dump's rows; rows inserted equal messages in the input |
| Logger.FromCharCodesSpec | server/source/common/logger.ts:15-21 | output length equals input length; unit i is `ints[i] mod 65536` |
| Logger.FromCharCodesAppend | server/source/common/logger.ts:17-19 | `f(a + b) == f(a) + f(b)` |
| Logger.IntArrayToString | server/source/common/logger.ts:15-21 | the loop builds exactly `FromCharCodes(ints)`: same length, unit i is `ints[i] mod 65536`, "" for [] |
| Session.ParserExists | server/public/index.js:84-86 | some parser meets `ParsesFragments`: reading an html back as the escaped messages it was built from |
| Session.PollReceivesPage | server/public/index.js:80-88 | on an escaped thread, an active poll appends exactly the page the store returns for `after` |
| Session.PollKeepsSync | server/public/index.js:80-88 | a poll keeps the page in step and brings in up to 500 next messages |
| Session.SyncedExtends | server/db.ts:78-84 | new rows only extend a thread, so a page in step stays so |
| Session.AddKeepsEscaped | server/db.ts:78-84 | a row stored escaped extends each thread by its own rows only and keeps the thread escaped |
| Session.StepKeepsSync | server/public/index.js:74-93 | one post of an escaped message, or one poll, keeps the thread escaped and the page in step |
| Session.RunKeepsSync | server/public/index.js:74-93 | any run of posts of escaped messages and polls keeps a page in step: no message shown twice, none skipped |
| Session.RunAppend | server/public/index.js:92 | running two event lists one after the other |
| Session.PostThenPoll | server/public/index.js:80-86 | a post then a poll stores the row and appends the page after the shown children |
| Session.PostExtendsThread | server/db.ts:78-84 | a row of the pair adds its message to the thread |
| Session.LoadedAsWrittenSynced | server/server.ts:111-115 | the page as loaded holds the placeholder for an empty thread; it is in step iff the thread is non-empty |
| Session.FirstPostHidden | server/public/index.js:80 | after the first log and a poll, the page still shows only the placeholder |
| Session.TwoPostsThread | server/db.ts:78-98 | after two logs the thread is both messages and the page from 1 is the second |
| Session.SecondPostShown | server/public/index.js:80-86 | with one child shown, the next poll appends only the second message |
| Session.PlaceholderTrace | server/server.ts:113-115 | load on an empty thread, two logs each polled: the page shows the placeholder and the second message |
| Session.OutOfStep | server/public/index.js:80 | a page whose first child is not the first message is out of step |
| Session.PlaceholderSkipsFirstMessage | server/server.ts:113-115 | as written, for escaped messages and a player name without `<`, that page is out of step and never shows the first message (see Findings) |
| Session.SessionStaysSynced | server/public/index.js:74-93 | with the placeholder kept out of `<main>`'s counted children, the page starts in step and stays in step through any run of posts of escaped messages and polls |
| Session.PollPage | server/public/index.js:74-93 | a tick against a store whose thread is escaped keeps the page in step and appends exactly the next page |

## Left out

- Fastify routing and HTTP mechanics, static files, CORS, ejs and pino setup. The `page()` template (server/server.ts:220-256) is reduced to its title and its `<main>` content.
- Knex configuration, the backend choice, and `prepareDatabase` schema creation. Database timestamps are caller-supplied `now` values.
- `sanitizeHtml` is an uninterpreted parameter; no claim is made about what it lets through.
- The `/hackme` eval endpoint, the `fill` endpoints and the DEBUG dummy data: they run code or draw random and wall-clock values.
- `setTimeout`, `fetch`, `localStorage` persistence across loads, DOM scrolling and the HTML parser. The timer delay is returned as a number, `fetch` and `parse` are parameters, and `localStorage` is a map field.
- The migration's `Promise.all` and its transaction. The model fixes one admissible order in which the inserts land. Concurrent writers are not modelled.
- ServerDb.LogStore.DeleteLogs: does not model the commit-only branch (or a player without a commit), because it passes an `undefined` filter value to `where`, whose effect depends on the query builder; the result is `NotModelled` and the rows are not constrained.
- SourceDb.LogStore.DeleteLogs: same branch left open, for the same reason.
- Routes.DeleteLogs: the rows are constrained only in the two modelled branches; the reply is modelled in every branch.
- SourceRoutes.DeleteLogs: as Routes.DeleteLogs.
- Text.Trim and Text.ToLower: `toLowerCase` maps ASCII only; full Unicode case mapping is not modelled. `trim` uses the ECMAScript white-space set.
- SQL `ORDER BY` is not stable. `Listing.SortByTime` picks one admissible order, so which of two equal-`created_at` rows comes first is not modelled.
- The `logs` table has no `ORDER BY` in `getLogMessages`, nor in server/source/db.ts's `getListOfCommits` and `getListOfPlayers`. The model takes the rows in `id` order, the table's scan order.
- JavaScript object key order in the migration dump is the order of the `seq` given.
- Logger.IntArrayToString: inputs are integers; sparse arrays, non-integer numbers and `for…in` over extra enumerable keys are not modelled.
- server/source/server.ts calls `db.addLog` with four arguments and `db.getBranchesAndCommits`. Neither exists in server/source/db.ts. The branch is modelled on the posted record (`SourceRoutes.BranchLog`), and `/logs` is modelled over any listing.
- `listPlayersJson` (server/source/server.ts:21-25) sends the player list unchanged; `listPlayers` there is unrouted but modelled by `Routes.ListPlayers`.
- `flipDisplayOrder` (server/source/public/index.js:42-44) reads an out-of-scope `className` and is never called; it is not modelled.
- The two page scripts share `query`, `filterLogs`, `setDisplayOrder` and the order restore; one `Client.LogView` models both, with the poll interval (1500 ms or 1000 ms) as a field and the first-poll delay (1000 ms or 500 ms) left to the caller. They differ otherwise in `window.updateDevice` (server/public/index.js:45-72), which only this revision has and whose name sanitiser `Client.SafeNameSpec` models, and in `flipDisplayOrder`, which only server/source/public/index.js has (see above).
- Session: the child's text is identified with the stored message. The browser decodes entities such as `&lt;` in `innerText`; that decoding is not modelled. Being in step is about which messages the children stand for, and the poll counts children.
- Session: the lemmas hold for threads of escaped messages. `Routes.MakeSafeEscapes` shows that both ingestion routes store such messages when `sanitizeHtml` adds no `<`. Rows written by other means, such as the migration script, which inserts the dumped messages as they are, are not covered.
- Session.LoadedAsWrittenSynced, Session.FirstPostHidden, Session.PlaceholderTrace and Session.PlaceholderSkipsFirstMessage: the player name must hold no `<`. The page handler puts the URL's player name into the placeholder without escaping it, so a name with `<` would add markup to `<main>`; that case is not modelled.
- `req.query.after` is a query-string value that the query builder converts to a number. The model takes it as an optional natural number, so non-numeric or negative values are not modelled.

## Findings

| source | as written | input that shows it | evidently intended | confidence | as-written member | corrected member |
|---|---|---|---|---|---|---|
| server/server.ts:18-63 | `listLinks` and `listPlayers` interpolate the `Log` objects that server/db.ts's listings return into links and the single-player redirect, so each renders as `[object Object]` | one player `p` on commit `c`: the redirect is `/logs/c/[object Object]` instead of `/logs/c/p` | interpolate the commit and player names | not executed | Routes.ListPlayersAsWrittenRedirect | Routes.ListPlayersRule, Routes.ListLinksShape |
| server/server.ts:113-115 with server/public/index.js:80 | the empty page pushes a placeholder `<pre>` into `<main>`, and the poll counts it in `main.children.length` | load the page of a pair with no logs; post `m1`, poll, post `m2`, poll (any distinct messages without `<`, and a player name without `<`): the page shows the placeholder and `m2`, never `m1` | keep the placeholder out of the counted children, so `after` equals the messages shown | not executed | Session.PlaceholderSkipsFirstMessage | Session.SessionStaysSynced |
