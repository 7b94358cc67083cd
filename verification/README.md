# alphabeticwords feed generator — a Dafny model

This project models the core of a Bluesky feed generator, the
"alphabeticwords" feed, written in TypeScript. The feed keeps posts whose
words are in alphabetical order of their first letters.

- **Feed policy** (`src/algos/alphabetical-words.ts`):
  - `subscriptionFilter` decides which created posts enter the feed.
  - `mapToPost` turns an accepted create into a `post` row.
  - `handler` serves a page of the feed from the `post` table, ordered
    newest first, continued by a `"<millis>::<cid>"` cursor.
- **Event router** (`src/subscription.ts`): `handleEvent` applies one
  firehose commit to the table. It deletes first, then inserts the accepted
  creates, and the first write for a URI wins.
- **Queue workers** (`src/workers/creates.ts`, `src/workers/deletes.ts`):
  each job is one transition of the table.
- **Configuration** (`src/config.ts`): `maybeStr`, `maybeInt` and the
  defaults used when a variable is unset, empty or not a number.

## How the model is laid out

| file | module | what it holds |
|---|---|---|
| `wrappers.dfy` | `Wrappers` | `Option` and `Result` |
| `js_text.dfy` | `JsText` | `indexOf`/`split`/`join`, `toLowerCase` on Latin-1 text, the string order and the default `sort()` |
| `js_number.dfy` | `JsNumber` | `parseInt(s, 10)` and the decimal rendering of an integer |
| `posts.dfy` | `Posts` | operations, the `post` row, the table as `map<Uri, Post>`, `DELETE ... WHERE uri IN` and `INSERT ... ON CONFLICT DO NOTHING` |
| `alphabetical_words.dfy` | `AlphabeticalWords` | `isASCII`, `subscriptionFilter`, `mapToPost` |
| `feed_handler.dfy` | `FeedHandler` | cursor decoding and encoding, the `WHERE` clause, the order, the query, `handler` |
| `subscription.dfy` | `Subscription` | `handleEvent` |
| `workers.dfy` | `Workers` | the two job functions and runs of several jobs |
| `config.dfy` | `Config` | `maybeStr`, `maybeInt`, the `config` object |
| `scenarios.dfy` | `Scenarios` | worked inputs: texts the filter accepts and rejects, cursors that decode or fail |

### Modelling choices

- **Strings.** Strings are Dafny strings, which are sequences of Unicode
  scalar values. The filter lower-cases and splits a text only after it has
  checked that every character is at most U+00FF, and there characters and
  UTF-16 code units coincide.
- **Lower-casing.** `toLowerCase` on Latin-1 maps A–Z and U+00C0–U+00DE,
  except U+00D7, up by 0x20. Every other Latin-1 character is left as it is.
- **Sorting.** The default `sort()` compares strings by UTF-16 code unit.
  It is modelled as an insertion sort under that order, `Below`. Two sorted
  lists with the same elements are equal (`SortedPermutationUnique`), so the
  choice of algorithm does not matter. The filter's element-wise loop compares two lists of the same
  length, so it is list equality.
- **Time.** `indexedAt` is an integer count of milliseconds. The ISO strings
  the source stores and compares are left out (see "Left out").
- **Clock.** `mapToPost` calls `new Date()`. The model takes the time as a
  parameter `now` instead.
- **Cursor errors.** A cursor is decoded into `Ok(None)` when it is absent
  or empty, `Ok(Some(position))` when it decodes, or one of two errors:
  - `MalformedCursor`: the first or the second `::`-separated part is
    missing or empty.
  - `InvalidTimeValue`: `parseInt` gives NaN, or a time outside ±8.64e15 ms.
    The `toISOString` call at line 59 then throws a `RangeError`.
- **Cursor clause as written.** The clause is
  `.where(indexedAt < t).orWhere(indexedAt = t).where(cid < c)`, added after
  `where(feed = shortname)`. Under SQL precedence it reads
  `(feed = shortname AND indexedAt < t) OR (indexedAt = t AND cid < c)`, and
  `RowSelected` models exactly that. `CursorAdmitsOtherFeedOnTie` shows that
  this clause admits a row of another feed that ties on the time.
  `HandleEventKeepsInvariants` and `JobsKeepInvariants` show that every
  writer in this core only writes this feed's rows, so the leak cannot show
  in a table written by this core alone.
- **Query result.** Rows that tie on both `indexedAt` and `cid` come back in
  an order SQL leaves open. So `Handler` is specified relationally by
  `IsPage`, and `SelectPage` meets `IsPage` by repeatedly taking a first
  remaining row.
- **Pagination.** `NextPageContinues` shows that the returned cursor
  selects exactly the rows not yet returned. This holds when the table holds
  only this feed's rows, no two rows share both `indexedAt` and `cid`, every
  `cid` is non-empty and free of `::`, and every `indexedAt` lies within
  ±8.64e15 ms. An empty `cid` makes the row's own cursor malformed
  (`EmptyCidCursorIsMalformed`). Without distinct positions, a row that ties
  the page's last row on both `indexedAt` and `cid` is skipped by the next
  cursor even when it was not returned (`TiedRowIsNotAfterCursor`,
  `TiedRowIsSkipped`).
- **Table keys.** The table maps each URI to the row stored under it, and
  `WellKeyed` says that every row's `uri` is its key. `handler` emits
  `row.uri`; it requires a well-keyed table, which every writer keeps
  (`HandleEventKeepsInvariants`, `JobsKeepInvariants`).
- **Behaviour worth noting.**
  - **Filter checks.** The filter has no reply, label or first-character
    check, so `"#hashtag only"` is accepted (`AcceptsHashtagFirstWord`).
  - **Non-numeric time in a cursor.** A time part that `parseInt` reads as
    NaN throws the Date's `RangeError`, not "malformed cursor"
    (`NonNumericTimeIsInvalidDate`).
  - **Who writes the table.** `handleEvent` in `src/subscription.ts` writes
    the table itself. `QueuedJobsMatchHandleEvent` shows that running one
    job per operation, deletes first, gives the same table.

## Model

| member | source | states |
|---|---|---|
| AlphabeticalWords.IsAscii | src/algos/alphabetical-words.ts:83-85 | `isASCII(s, true)` holds exactly when every character is at most 0xFF, and `isASCII(s, false)` exactly when every character is at most 0x7F; the empty string passes both |
| AlphabeticalWords.FirstLetter | src/algos/alphabetical-words.ts:23 | `substring(0, 1)` is a prefix of at most one character, and is empty exactly for the empty word |
| AlphabeticalWords.FirstLetters | src/algos/alphabetical-words.ts:23 | the first-letter list has one entry per word, each the first letter of that word |
| AlphabeticalWords.Words | src/algos/alphabetical-words.ts:17 | splitting the lower-cased text always gives at least one word |
| AlphabeticalWords.SubscriptionFilter | src/algos/alphabetical-words.ts:11-31 | an accepted text is Latin-1 and contains a space |
| AlphabeticalWords.TextWithoutSpaceIsOneWord | src/algos/alphabetical-words.ts:17-20 | a Latin-1 text splits into at most one word exactly when it has no space |
| AlphabeticalWords.FilterCharacterization | src/algos/alphabetical-words.ts:11-31 | accepted exactly when the text is Latin-1, contains a space, and the first letters of its lower-cased words are non-decreasing, with `""` for an empty word |
| AlphabeticalWords.FilterOnJoinedWords | src/algos/alphabetical-words.ts:17-27 | for a text that lower-cases to space-free words joined by single spaces, accepted exactly when those words' first letters are in order |
| AlphabeticalWords.RejectsBeyondLatin1 | src/algos/alphabetical-words.ts:15 | a text with a character above 0xFF is rejected |
| AlphabeticalWords.RejectsSingleWord | src/algos/alphabetical-words.ts:17-20 | a text without a space, including the empty text, is rejected |
| AlphabeticalWords.FilterDependsOnlyOnText | src/algos/alphabetical-words.ts:11-31 | two creates with the same text get the same decision |
| AlphabeticalWords.MapToPost | src/algos/alphabetical-words.ts:34-43 | the row copies `uri` and `cid`, has `feed = shortname`, takes the reply parent and root URIs when there is a reply and null otherwise, and is stamped with the current time |
| JsText.IndexOfLeftmost | src/algos/alphabetical-words.ts:55 | an occurrence of the separator with none before it is the one `indexOf` finds |
| JsText.Split | src/algos/alphabetical-words.ts:55 | `split` always gives at least one piece, the empty text included, and its first piece is a prefix of the text |
| JsText.SplitJoin | src/algos/alphabetical-words.ts:17 | joining the pieces of `split(sep)` with `sep` gives the text back |
| JsText.SplitPiecesFree | src/algos/alphabetical-words.ts:55 | no piece of a split contains the separator |
| JsText.SplitSingleIff | src/algos/alphabetical-words.ts:17-20 | a split has one piece exactly when the separator does not occur |
| JsText.SplitAtFirst | src/algos/alphabetical-words.ts:55 | the first piece is the text before the leftmost separator, and the rest is the split of the text after it |
| JsText.SplitJoinedWords | src/algos/alphabetical-words.ts:17 | splitting words joined by a character none of them contains gives the words back |
| JsText.LowerKeepsSpaces | src/algos/alphabetical-words.ts:17 | lower-casing Latin-1 text neither adds nor removes spaces |
| JsText.Lower | src/algos/alphabetical-words.ts:17 | lower-casing keeps the length, maps each character on its own, stays within Latin-1 and leaves no letter A–Z |
| JsText.LowerIdempotent | src/algos/alphabetical-words.ts:17 | lower-casing lower-cased text changes nothing |
| JsText.Below | src/algos/alphabetical-words.ts:24 | a proper prefix sorts before its extensions, as code-unit order and SQLite's binary order both put it |
| JsText.BelowTrichotomy | src/algos/alphabetical-words.ts:24 | of two different strings, exactly one is below the other |
| JsText.BelowTransitive | src/algos/alphabetical-words.ts:24 | the string order is transitive |
| JsText.LeTotal | src/algos/alphabetical-words.ts:24 | any two strings are comparable |
| JsText.LeAntisymmetric | src/algos/alphabetical-words.ts:24 | strings at most each other are equal |
| JsText.Insert | src/algos/alphabetical-words.ts:24 | inserting adds exactly the one element and keeps a sorted list sorted |
| JsText.Sort | src/algos/alphabetical-words.ts:24 | `sort()` returns a sorted permutation of its input |
| JsText.SortFixpointIff | src/algos/alphabetical-words.ts:24-27 | a list equals its sorted copy exactly when it is non-decreasing |
| JsText.SortedPermutationUnique | src/algos/alphabetical-words.ts:24 | two sorted lists with the same elements are equal, so every correct `sort()` returns what `Sort` returns |
| JsNumber.TrimStart | src/algos/alphabetical-words.ts:59 | `parseInt` drops exactly the maximal prefix of white space |
| JsNumber.ParseInt | src/config.ts:33 | a plain run of digits reads as its value, and a negative result needs `-` as the first non-blank character |
| JsNumber.LeadingDigits | src/config.ts:33 | the digit run `parseInt` reads is the longest prefix of decimal digits |
| JsNumber.NatDigits | src/algos/alphabetical-words.ts:74 | the rendered digits of n have no leading zero and denote n |
| JsNumber.ToDecimal | src/algos/alphabetical-words.ts:74 | a rendered integer is non-empty and contains no `:` |
| JsNumber.ParseIntToDecimal | src/algos/alphabetical-words.ts:59 | `parseInt` reads a rendered integer back as that integer |
| JsNumber.ParseIntDigitPrefix | src/config.ts:33 | `parseInt` of digits followed by a non-digit is the digits' value |
| JsNumber.TrimBlanks | src/config.ts:33 | white space in front of text that does not start with white space is exactly what `parseInt` trims |
| JsNumber.ParseIntSkipsBlanks | src/config.ts:33 | leading white space does not change what `parseInt` reads |
| JsNumber.ParseIntAfterSign | src/config.ts:33 | after `+` or `-`, `parseInt` reads the digit run, negated after `-` |
| JsNumber.ParseIntSignedDigits | src/config.ts:33 | an optional sign, a digit run and a non-digit tail read as the signed digits' value |
| JsNumber.ParseIntReadsPrefix | src/config.ts:33 | white space, an optional sign, a digit run and any tail not starting with a digit read as the signed value of the digit run |
| JsNumber.ParseIntNaNIff | src/config.ts:33-34 | `parseInt` is NaN exactly when no digit follows the white space and optional sign |
| Posts.DeleteWhereUriIn | src/subscription.ts:24-27 | the rows under the listed URIs are gone and every other row is as before |
| Posts.InsertIfAbsent | src/workers/creates.ts:14-18 | a row already under the URI stays; otherwise the new row is added; nothing else changes |
| Posts.FirstWithUri | src/subscription.ts:32-33 | the row found is one of the inserted rows with that URI, and none is found only when there is none |
| Posts.FirstWithUriIsFirst | src/subscription.ts:30-34 | the row found comes before every other inserted row with that URI |
| Posts.InsertAllIfAbsent | src/subscription.ts:30-34 | after a multi-row insert, an existing row stays, and a new URI gets the first of the inserted rows with that URI |
| Posts.WellKeyedPreserved | src/subscription.ts:23-35 | delete and insert keep every row under its own URI |
| FeedHandler.ParseCursor | src/algos/alphabetical-words.ts:54-59 | no cursor or an empty one starts the feed; a decoded position has an in-range time and a non-empty `cid` free of `::` |
| FeedHandler.RenderCursor | src/algos/alphabetical-words.ts:74 | splitting a row's cursor on `::` gives the rendered time and then the pieces of the row's `cid` |
| FeedHandler.MalformedCursorIff | src/algos/alphabetical-words.ts:55-58 | a non-empty cursor is malformed exactly when it has no `::`, starts with `::`, or has nothing or another `::` right after the first `::` |
| FeedHandler.CursorRoundTrip | src/algos/alphabetical-words.ts:54-75 | the cursor emitted for a row decodes to the row's position when its time is in range and its `cid` is non-empty and free of `::` |
| FeedHandler.DecodesToRenderedTime | src/algos/alphabetical-words.ts:55-59 | a cursor whose first two parts are a rendered in-range time and a non-empty cid decodes to that position |
| FeedHandler.NotBehindTotal | src/algos/alphabetical-words.ts:50-51 | `ORDER BY indexedAt DESC, cid DESC` compares every two rows |
| FeedHandler.NotBehindTransitive | src/algos/alphabetical-words.ts:50-51 | the feed order is transitive |
| FeedHandler.RowSelected | src/algos/alphabetical-words.ts:49-63 | a row of another feed passes the `WHERE` clause only when a cursor is given and the row ties on the cursor's time |
| FeedHandler.Matching | src/algos/alphabetical-words.ts:49-63 | the selected rows are exactly the table's rows satisfying the `WHERE` clause |
| FeedHandler.IsPage | src/algos/alphabetical-words.ts:50-52 | a page has at most `limit` rows, all from the table, and is empty only when the limit is 0 or no row matches |
| FeedHandler.FirstRowExists | src/algos/alphabetical-words.ts:50-51 | every non-empty set of rows has a first row in feed order |
| FeedHandler.PageSoFarStep | src/algos/alphabetical-words.ts:50-52 | taking a first remaining row extends a correct partial answer |
| FeedHandler.PageSoFarDone | src/algos/alphabetical-words.ts:50-52 | a partial answer that reached the limit or ran out of rows is a page |
| FeedHandler.SelectPage | src/algos/alphabetical-words.ts:46-65 | the query returns distinct selected rows in feed order, `min(limit, matches)` of them, and no unreturned match precedes a returned row |
| FeedHandler.Respond | src/algos/alphabetical-words.ts:67-75 | one feed entry per row, in order, each the row's `uri`; the cursor is the last row's cursor, absent exactly for an empty page |
| FeedHandler.RespondListsKeys | src/algos/alphabetical-words.ts:67-69 | in a table whose rows sit under their own URIs, the skeleton lists exactly the selected rows' URIs in order |
| FeedHandler.Handler | src/algos/alphabetical-words.ts:45-81 | on a table whose rows sit under their own URIs, the request fails exactly when the cursor does not decode, with the same error; otherwise it returns a page of the selected rows, at most `limit` of them in feed order, and the cursor of the last row, none when empty |
| FeedHandler.PositionOf | src/algos/alphabetical-words.ts:74 | a row is not strictly after its own cursor position |
| FeedHandler.AfterTransitive | src/algos/alphabetical-words.ts:60-63 | a row after a row that is after a position is itself after that position |
| FeedHandler.CursorSelectsRowsAfter | src/algos/alphabetical-words.ts:60-63 | on this feed's rows the cursor clause selects exactly the rows strictly after the position |
| FeedHandler.CursorAdmitsOtherFeedOnTie | src/algos/alphabetical-words.ts:49-63 | every row of another feed that ties on a cursor's time with a smaller `cid` passes the cursor clause, though not the clause without a cursor |
| FeedHandler.NextPageContinues | src/algos/alphabetical-words.ts:54-75 | the returned cursor decodes, and it selects exactly the matching rows not yet returned |
| Subscription.DeleteUris | src/subscription.ts:18 | one URI per delete, in order |
| Subscription.AcceptedCreates | src/subscription.ts:19-20 | the creates kept are exactly those in the event that the filter accepts, and no more than the event has |
| Subscription.Filter | src/subscription.ts:19-20 | `filter` keeps exactly the elements the test accepts, and no more than the input has |
| Subscription.FilterAppend | src/subscription.ts:19-20 | filtering a concatenation concatenates the filtered parts, so order and repetitions are kept |
| Subscription.MapToPosts | src/subscription.ts:21 | one row per accepted create, each its `mapToPost` |
| Subscription.FirstAcceptedNoneIff | src/subscription.ts:19-21 | no row is found for a URI exactly when no create for it is accepted |
| Subscription.FirstAcceptedIsEarliest | src/subscription.ts:19-21 | the row found for a URI is `mapToPost` of the earliest accepted create for it |
| Subscription.FirstInsertedIsFirstAccepted | src/subscription.ts:19-34 | inserting the mapped accepted creates adds under each URI the row of its first accepted create |
| Subscription.HandleEvent | src/subscription.ts:9-36 | non-commits and failed extractions change nothing; otherwise a row stays when it is not deleted, and every other URI holds its first accepted create's row or nothing |
| Subscription.DeletedUnlessRecreated | src/subscription.ts:18-35 | a deleted URI is present afterwards exactly when an accepted create of the same event has it |
| Subscription.FirstWriteWins | src/subscription.ts:29-34 | an existing row not deleted by the event is kept as it was |
| Subscription.OnlyAcceptedInserted | src/subscription.ts:19-35 | a row that is new or changed is `mapToPost` of an accepted create for its URI |
| Subscription.HandleEventIdempotent | src/subscription.ts:9-36 | handling an event twice at the same time gives the table handling it once gives |
| Subscription.HandleEventKeepsInvariants | src/subscription.ts:18-35 | rows stay under their own URIs and inside this feed |
| Workers.RunCreateJob | src/workers/creates.ts:10-20 | a rejected create changes nothing; an accepted one adds `mapToPost` exactly when its URI is absent; other URIs are untouched; the table grows by at most one |
| Workers.RunDeleteJob | src/workers/deletes.ts:8-10 | the job's URI has no row afterwards and every other row is as before |
| Workers.DeleteAbsentIsNoop | src/workers/deletes.ts:9 | deleting an absent URI leaves the table as it was |
| Workers.CreateJobIdempotent | src/workers/creates.ts:10-20 | redelivering a create job, even later, changes nothing |
| Workers.DeleteJobIdempotent | src/workers/deletes.ts:8-10 | redelivering a delete job changes nothing |
| Workers.RacingCreatesLeaveOneRow | src/workers/creates.ts:17 | two runs of one accepted create leave the existing row, or else the first run's row |
| Workers.JobsOnDifferentUrisCommute | src/workers/creates.ts:10-20 | a create job and a delete job for different URIs give the same table in either order |
| Workers.RunDeleteJobs | src/workers/deletes.ts:8-10 | a run of delete jobs removes exactly their URIs |
| Workers.RunCreateJobs | src/workers/creates.ts:10-20 | a run of create jobs keeps existing rows and adds each new URI's first accepted create |
| Workers.QueuedJobsMatchHandleEvent | src/subscription.ts:18-35 | the event's delete jobs followed by its create jobs give the table `handleEvent` gives |
| Workers.JobsKeepInvariants | src/workers/creates.ts:13-18 | both workers keep rows under their own URIs and inside this feed |
| Config.MaybeStr | src/config.ts:26-29 | undefined for a missing or empty value, otherwise the value unchanged |
| Config.MaybeInt | src/config.ts:31-36 | undefined for a missing or empty value, otherwise what `parseInt(val, 10)` reads, NaN included |
| Config.StrSetting | src/config.ts:44 | the variable's value when set and non-empty, else the default |
| Config.IntSetting | src/config.ts:43 | the default exactly when `maybeInt` gives undefined, else its integer |
| Config.LoadConfig | src/config.ts:38-58 | each of the ten settings comes from its variable when that is set and readable, else from its default, the service DID defaulting to `did:web:` plus the host name |
| Config.EmptyIsUnset | src/config.ts:26-36 | a variable set to `""` configures what an unset one does |
| Config.DefaultsWhenUnset | src/config.ts:38-58 | an empty environment gives port 3000, `example.com`, `did:web:example.com`, reconnect delay 3000 and Redis port 6379, among the other defaults |
| Config.ServiceDidFollowsHostname | src/config.ts:38-40 | whenever `FEEDGEN_SERVICE_DID` is unset or empty, the service DID is `did:web:` plus the configured host name, whatever else is set |
| Config.ParseIntOfDigitsThenLetters | src/config.ts:33 | `parseInt("12ab", 10)` is 12 |
| Config.ParseIntOfLetters | src/config.ts:33-34 | `parseInt("abc", 10)` is NaN |
| Config.ParseIntOfZero | src/config.ts:33 | `parseInt("0", 10)` is 0 |
| Config.PortFromDigitPrefix | src/config.ts:43 | `FEEDGEN_PORT=12ab` configures port 12 |
| Config.ZeroIsNotDefault | src/config.ts:31-35 | `FEEDGEN_PORT=0` configures port 0, not the default |
| Config.NonNumericFallsBack | src/config.ts:43 | `FEEDGEN_PORT=abc` configures the default port 3000 |
| Scenarios.AcceptsAntBeeCat | src/algos/alphabetical-words.ts:11-31 | `"Ant Bee Cat"` is accepted: lower-cased, its letters a, b, c are in order |
| Scenarios.RejectsBeeAntCat | src/algos/alphabetical-words.ts:11-31 | `"bee ant cat"` is rejected: b comes before a |
| Scenarios.AcceptsHashtagFirstWord | src/algos/alphabetical-words.ts:11-31 | `"#hashtag only"` is accepted: `#` sorts before `o` and nothing tests for a letter |
| Scenarios.RejectsDoubleSpace | src/algos/alphabetical-words.ts:17-24 | `"ant  bee"` is rejected: the empty word between the spaces has letter `""`, which sorts before `a` |
| Scenarios.AcceptsLeadingSpace | src/algos/alphabetical-words.ts:17-24 | `" ant bee"` is accepted: the leading empty word's `""` sorts first |
| Scenarios.CursorKeepsSecondPartOnly | src/algos/alphabetical-words.ts:55 | a cursor `t::a::b` decodes to time t and cid a; what follows the second `::` is dropped |
| Scenarios.CursorTruncatesCid | src/algos/alphabetical-words.ts:54-75 | a row whose `cid` is `a::b`, with `a` non-empty and neither part holding `:`, gets a cursor that decodes to cid `a`, a different position |
| Scenarios.EmptyCidCursorIsMalformed | src/algos/alphabetical-words.ts:54-75 | a row with an empty `cid` gets a cursor that is then refused as malformed |
| Scenarios.TiedRowIsNotAfterCursor | src/algos/alphabetical-words.ts:60-63 | a row tying the cursor's row on both `indexedAt` and `cid` is not selected by that cursor |
| Scenarios.TiedRowIsSkipped | src/algos/alphabetical-words.ts:45-75 | with two rows tied on time and `cid`, a one-row page returns one of them and the next cursor skips the other, which the first query selected |
| Scenarios.CursorWithoutSeparatorIsMalformed | src/algos/alphabetical-words.ts:55-58 | a non-empty cursor without `:` is malformed |
| Scenarios.NonNumericTimeIsInvalidDate | src/algos/alphabetical-words.ts:56-59 | a cursor whose time part `parseInt` reads as NaN passes the malformed test and fails on the invalid Date |

## Left out

- I/O and side effects: `console.log` of each accepted text (`src/algos/alphabetical-words.ts:30`) and of extraction errors (`src/subscription.ts:12`).
- `isCommit` and `getOpsByType` are not part of this model: a `RepoEvent` carries either the extracted post operations or nothing (a failed extraction).
- Kysely and SQLite: the statements are modelled by their effect on a `map` from URI to row, with `uri` as the unique key.
- Queue semantics (retries, leases, retention), the server, the worker set-up in `src/subscriptionWorkers.ts` and the entry points: a job run is one atomic table transition.
- FeedHandler.Handler: compares `indexedAt` as integers, where the source compares ISO strings. The two agree for years 0000 to 9999 only. A cursor such as `253402300800000::x` (year 10000) renders as `"+010000-01-01T00:00:00.000Z"`, which sorts below every stored `"2024-…"` time, so the source returns an empty page where the model returns the feed's first page.
- AlphabeticalWords.MapToPost: stores `indexedAt` as integer milliseconds, not the ISO string `toISOString` gives. The source compares these strings in SQL, which agrees with comparing the numbers only for years 0000 to 9999.
- Subscription.HandleEvent: stamps every create of one event with the same time `now`; the source reads the clock once per create.
- Subscription.HandleEvent: runs the delete and the insert as one step, where the source awaits two separate statements and another writer may run between them. A failing statement (a rejected promise) is not modelled: after a successful extraction the model always succeeds.
- Subscription.FirstAccepted: states no contract of its own; `FirstAcceptedNoneIff` and `FirstAcceptedIsEarliest` state what it finds.
- JsNumber.ParseInt: an unbounded integer, without the rounding of Number for values beyond 2^53 and without Infinity for very long digit runs.
- Config.MaybeInt: does not model `parseInt` returning Infinity for very long digit runs, which `isNaN` would let through.
- JsText.Lower: covers Latin-1 text only. The filter lower-cases nothing else, because it rejects any other text first.
- Strings are sequences of code points, not of UTF-16 code units: a character above U+FFFF is one character here and two in the source, and a lone surrogate is an ordinary character. Post texts with such characters are rejected by `isASCII` before anything is lower-cased, split or sorted. Cursors, cids, URIs and environment values can carry them too. For those the model splits only at `::`, trims only white space and compares cids by code point, which is how SQLite's binary collation orders UTF-8. How the database driver encodes a lone surrogate is not modelled.
- The order among rows that tie on both `indexedAt` and `cid` is left open, as SQL leaves it; `IsPage` admits any such order.
