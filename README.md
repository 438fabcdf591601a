# Mina Hållplatser API: departure merge, stop filters and user counts

A Dafny model of the logic inside the route handlers of the Mina Hållplatser
API, a small Express server in front of Västtrafik's departure board:

- **Departure merge** (`getDepartures` in `src/routes/vasttrafik.js`, and the older
  copy of the `/departures` handler in `src/app.js`). The handler walks the
  board's `Departure` records in upstream order. It keeps one entry per
  (`name`, `direction`), built from the first record of that pair. It stores
  the minutes until that departure, clamped at 0, as `timeLeft`. A later
  record of the same pair sets `nextStop` to its unclamped offset, but only
  while `nextStop` is falsy (null or 0). The result is stable-sorted by
  (`timeLeft`, `nextStop`), with null after every number, and each entry gets
  its 0-based position as `index`. The merge loop is a method (`Departures.MergeDepartures`)
  proved equal to a fold (`Departures.Merged`). That fold is then proved equal to an
  independent description (`Departures.MergeCorrect`): the first record of each key,
  in order of first appearance (`Seqs.UniqBy`), with `nextStop` taken from the key's
  later records (`Departures.NextStopOf`).
- **Replies of `getDepartures`**: `{success: false, data: []}` without a token or stop id;
  the generic error text when the answer has no `DepartureBoard`; the
  "no departures" text when the board has no `Departure` or the merge is
  empty; otherwise the list with the board's `servertime`/`serverdate` (or the
  local clock's) and, in the router version only, a `timestamp`.
- **Stop lists**: `filterDepartures` and the nearby-stop reduction
  `_.uniqBy(_.filter(list, o => !o.track), 'name')`. `src/app.js:16-23` and
  `src/app.js:171` are character-for-character copies of
  `src/routes/vasttrafik.js:8-15` and `:184`, so `Stops.FilterDepartures` and
  `Stops.NearbyStops` model both copies. Likewise, the merge block at
  `src/app.js:69-88` is the same code as `src/routes/vasttrafik.js:52-71`.
  Both handler methods therefore call the same `Departures.MergeDepartures` and
  return the same `DepartureOrder.BuildDepartures` list.
- **Firebase handlers**: the `/userscount` loop over the users snapshot, and
  `/users`, which writes each user's key into its `id`, in place, and lists the users.

Abstractions:
- Times are whole minutes. A record's `time`/`rtTime` stand for the minutes of
  `date time` and `date rtTime`.
- The reference minute `now` is `minuteOf(serverdate, servertime)`, where each of
  `serverdate` and `servertime` falls back to the local clock's reading on its own
  when the board lacks it. `minuteOf` (moment's parsing) and the clock readings
  (`Routes.Clock`) are parameters.
- Every record field the code only copies is carried in a `fields` map.
- The upstream answer is a parameter of the handler methods.
- `isAnonymous` is a tri-state `Firebase.FlagValue`.

The code does not split a "via" suffix off `direction`, never swaps the first and
next departure of a key (so `timeLeft <= nextStop` is not guaranteed), and queries a
fixed `timeSpan=90` window (`src/routes/vasttrafik.js:43`) without widening it.

The model follows the code: `DepartureExamples.OutOfOrderKept` shows an entry whose `nextStop`
is smaller than its `timeLeft` (and negative). `DepartureExamples.ZeroNextStopReplaced` shows that a
`nextStop` of 0 is overwritten by a later record, because the code tests
`!nextStop` rather than `nextStop === null`.

Files: `wrappers.dfy` (Option, one-or-many fields), `seqs.dfy` (lodash `filter`,
`findIndex`, `uniqBy` and their lemmas), `departures.dfy` (merge),
`ordering.dfy` (`orderBy`, numbering, properties of the whole list),
`examples.dfy`, `stops.dfy`, `routes.dfy` (`src/routes/vasttrafik.js` handler),
`app.dfy` (`src/app.js` handler), `firebase.dfy`.

## Model

| member | source | states |
|---|---|---|
| `Seqs.FindIndex` | src/routes/vasttrafik.js:54-56 | `_.findIndex` gives -1 exactly when no element has the key, else the position of the first element that has it |
| `Seqs.UniqByDistinct` | src/routes/vasttrafik.js:184 | `uniqBy` leaves no two elements with the same key |
| `Seqs.UniqByKeys` | src/routes/vasttrafik.js:184 | `uniqBy` keeps every key of its input and adds none |
| `Seqs.UniqByFirsts` | src/routes/vasttrafik.js:184 | each element `uniqBy` keeps is the first input element with its key, and the kept elements are in input order |
| `Departures.MergeDepartures` | src/routes/vasttrafik.js:52-66 | the `forEach` loop that pushes entries and sets `nextStop` in place computes `Merged(records, now)`; it yields no more entries than records, distinct (name, direction) keys, and `timeLeft >= 0` |
| `Departures.NextStopSnoc` | src/routes/vasttrafik.js:61-62 | a later same-key record replaces `nextStop` exactly when it is falsy (null or 0); this matches the reference definition: null when there is no later record, else the first non-zero later offset, else 0 |
| `Departures.MergedSpec` | src/routes/vasttrafik.js:53-66 | the merge keeps, in upstream order, the first record of each (name, direction) (`UniqBy`); each entry has `timeLeft = max(0, effective - now)`, with effective from `rtTime` if present else `time`, and `nextStop` given by `NextStopOf` over the later same-key records |
| `Departures.MergedProperties` | src/routes/vasttrafik.js:53-66 | at most one entry per key; an entry for exactly the keys on the board; each entry's fields are those of the first record with its key; `timeLeft` is the clamped offset; no more entries than records |
| `DepartureOrder.OrderByTimeSorted` | src/routes/vasttrafik.js:68 | `orderBy(['timeLeft','nextStop'])` yields ascending `timeLeft`, then ascending `nextStop`, with null after every number |
| `DepartureOrder.OrderByTimePermutation` | src/routes/vasttrafik.js:68 | the sort returns a permutation of its input |
| `DepartureOrder.OrderByTimeStable` | src/routes/vasttrafik.js:68 | entries with equal (`timeLeft`, `nextStop`) keep their relative order, since lodash's sort is stable |
| `DepartureOrder.OrderByTimeDistinct` | src/routes/vasttrafik.js:68 | sorting keeps the (name, direction) keys pairwise distinct |
| `DepartureOrder.BuildDeparturesShape` | src/routes/vasttrafik.js:68-72 | after sorting, entry k has `index = k`; the list is no longer than the board and is empty only for a board without records |
| `DepartureOrder.BuildDeparturesOrdered` | src/routes/vasttrafik.js:68-71 | the returned list is sorted by (`timeLeft`, `nextStop`, null last); entries with equal sort keys keep their merge order |
| `DepartureOrder.BuildDeparturesEntries` | src/routes/vasttrafik.js:53-71 | the returned list has one entry per (name, direction) of the board and no other entries; each entry is the one `Expected` builds from its key's records |
| `Routes.GetDepartures` | src/routes/vasttrafik.js:28-99 | without a truthy token or id the reply is `{success:false, data:[]}`, whatever the upstream answer; without `DepartureBoard` it is the generic error text; without `Departure` or with an empty merge it is the "no departures" text; otherwise it is success with the non-empty `BuildDepartures` list, the server time and date, each replaced by the clock's when missing, a timestamp, and `now` parsed from that date and time |
| `AppRoutes.PostDepartures` | src/app.js:46-116 | the same replies as `Routes.GetDepartures` and the same departure list for the same board, clock and `minuteOf`; the success payload has no `timestamp` |
| `Stops.FilterDepartures` | src/routes/vasttrafik.js:8-15 | `[]` without `StopLocation`; a single stop is wrapped into a list; of an array only the first 10 stops are considered; stops whose name starts with '.' are dropped and every other of those stops is kept; never more than 10 stops |
| `Stops.NearbyStopsTrackless` | src/routes/vasttrafik.js:184 | every nearby stop is a stop of the input, and none has a truthy `track` |
| `Stops.NearbyStopsNames` | src/routes/vasttrafik.js:184 | nearby stop names are pairwise distinct, and the name of every trackless stop is present |
| `Stops.NearbyStopsFirsts` | src/routes/vasttrafik.js:184 | each nearby stop is the first trackless stop with its name, and the nearby stops keep the relative order of the trackless ones |
| `Firebase.CountsPartition` | src/routes/firebase.js:39-47 | every user falls in exactly one of the three counts, so the counts sum to the number of users |
| `Firebase.UsersCount` | src/routes/firebase.js:36-47 | the counters start at 0; `registered` counts `isAnonymous === true`, `anonymous` counts `=== false`, and `unknown` counts every other value, so the label looks inverted but the code does this; the three counts sum to the number of users |
| `Firebase.ListUsers` | src/routes/firebase.js:57 | one element per key of `db.users`, in order; each user object gets `id` equal to its key, in place; its other fields are unchanged |
| `DepartureExamples.ThirdRecordDropped` | src/routes/vasttrafik.js:61-65 | three records of one key at +5, +20 and +35 minutes give one entry with `timeLeft` 5 and `nextStop` 20 |
| `DepartureExamples.PastDepartureClamped` | src/routes/vasttrafik.js:57-64 | `rtTime` wins over `time`, and a departure 3 minutes in the past has `timeLeft` 0 |
| `DepartureExamples.ZeroNextStopReplaced` | src/routes/vasttrafik.js:61-62 | a `nextStop` of 0 is falsy, so a third record replaces it |
| `DepartureExamples.OutOfOrderKept` | src/routes/vasttrafik.js:57-65 | records that arrive out of order are not swapped: `nextStop` (-2) is below `timeLeft` (10) and is not clamped |

## Left out

- HTTP and routing: Express, the `r2` requests, `bodyParser`, `app.listen` and the
  logging middleware (`src/app.js:35-43`). These are I/O. The upstream answer is a parameter.
- moment's date parsing and formatting. Times are integer minutes. The parsing of
  the server date and time into a minute (`minuteOf`) and the local clock readings
  (`Routes.Clock`) are supplied by the caller.
- The recursive self-retry on caught errors (`src/routes/vasttrafik.js:100-112`) and
  `src/error.js`, which treats only `EAI_AGAIN` as transient. The retry is unbounded
  recursion driven by network failures, which the model does not represent.
  The `src/app.js` handler has no `catch` at all.
- The Firebase SDK start-up and the realtime listener that reassigns `db` and
  `users` (`src/routes/firebase.js:5-21`). The snapshot is a parameter of the handler methods.
- The replies of `searchStops` and `getNearbyStops` (messages and status codes). Only the
  lists they compute are modelled.
- Routes.GetDepartures: an empty `Departure` array is read as a board without records, so the
  reply is "no departures". The code instead wraps `[]` as `[[]]`, because `[].length` is
  falsy, and produces one entry built from the empty array.
- AppRoutes.PostDepartures: reads an empty `Departure` array the same way, as a board
  without records; `src/app.js:63` has the same `[[]]` wrapping.
- Stops.FilterDepartures: the relative order of the kept stops is fixed by the
  definition of `Seqs.Filter` only; no separate lemma states it.
- Stops.FilterDepartures: the in-place removal of the first ten stops from the answer's
  `StopLocation` array by `splice` is not modelled, because nothing reads that array afterwards.
  Stop names that are not strings are not modelled either; `startsWith` would throw on them.
- Departures.MergeDepartures: an unparseable date that would make `timeLeft` NaN is not
  modelled. moment's truncating minute difference is exact here, because all inputs have
  minute resolution.
- Firebase.ListUsers: requires the user objects of `db.users` to be distinct. This holds for
  any JSON snapshot; if one object appeared under two keys, the last key would win.
