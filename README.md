# WebUntis substitution-plan client, modelled in Dafny

This project models the core of a small TypeScript client for the WebUntis
timetable service, as used for one school's substitution plan. The client
asks the service for one or more days, then turns each day's raw payload
into a plan. A plan holds the date, the time of the last update, the
affected groups, the messages of the day and the deduplicated entries. It
also turns the school's cryptic codes for subjects, rooms, groups and
classes into readable names.

Modules, one file each:

- `wrappers.dfy`: `Wrappers`, which holds `Option` and `Result`.
- `text.dfy`: `Text`, the string tools the source takes from JavaScript.
  - `startsWith` and `endsWith`.
  - `substr` and `split`/`join` for a non-empty separator.
  - `String(n)`.
  - `Table`, for lookups in an object literal.
  - Two generic building blocks for regular-expression matchers, both following ECMAScript backtracking order (ECMA-262, section 22.2.2):
    - `GreedyRun` is a quantifier that tries the longest run first.
    - `FirstKey` is an alternation tried from left to right.
- `substitution.dfy`: `Substitutions`, the `<span class="substMonitorSubstElem">A</span> (B)` markup.
  - Its matcher, the exact characterisation of `isSubstitution`, and `splitSubstitution`.
  - The `---` sentinel.
- `profiles.dfy`, `groups.dfy`, `classes.dfy`: `Profiles`, `Groups`, `Classes`.
  - The shared pattern `^(S1\/2|S3\/4)_(KEY|...)(?: ([0-9]+))?$`.
  - `Group` and `Class` with their `longName`.
- `subject.dfy`: `Subjects`, the subject table, the course pattern, `parseSubject` and `Subject`.
- `room.dfy`: `Rooms`, the building and room tables, the room pattern, `parseRoom` and `Room`.
- `entry.dfy`: `Entries`.
  - Entries, their room and teacher fields, and `affects`.
  - The constructor of `Entry.ts` as written, next to the corrected one.
- `sequences.dfy`: `Sequences`, subsequences and order-preserving deduplication (`Unique`).
- `plans.dfy`: `Plans`, `Message` and `DayPlan` with `isAffected` and `entriesFor`.
  - Group objects with their references, for `entriesFor` as written.
  - `SubstitutionPlan` is the same record under another name.
- `payload.dfy`: `Payloads`, the raw data of one day (`Payload`, `Row`, `RawMessage`).
- `webuntis.dfy`: `WebUntis`, the request layer.
  - `formatDate` over calendar dates.
  - `WebUntisResponse` and `parseResponse`.
  - The multi-day fetch loop `FetchDays`, proved against the step function `Paginate`.
- `normalizer.dfy`: `Normalizer`, the payload normaliser: `parseDate`, `parseRooms`, `parseTeacher`, `parseGroups`, `parseEntry`, `parseEntries`, `parseMessages` and `parseDayPlan`.

## How the model reads the source

- **Foreign functions are parameters.**
  - HTML-entity decoding (`he.decode`, used through `parseText`) and `Number.parseInt` are not reproduced. They are the two total functions of `Normalizer.Decoders`, and every parser takes them.
  - Where a lemma needs the decoder to leave a digit string alone, it says so in its `requires`.
- **Regular expressions are explicit matchers** that follow ECMAScript backtracking order.
  - An optional group is tried before it is skipped.
  - Alternatives are tried from left to right.
  - `.` excludes line terminators.
  - A greedy `(.+)` runs to the last split after which the rest of the pattern still matches.

  Each matcher comes with three results:
  - a soundness lemma: every match decomposes the text in the pattern's form;
  - a completeness lemma: every such decomposition is matched;
  - an exactness lemma saying which decomposition is chosen.

  Several source quirks are reproduced:
  - The dotless `S<digit>` course type renders as `undefined`.
  - The room area group `(0-9+)` matches a literal `0-` followed by nines.
  - A missing room part leaves a double space.
  - The room pattern never picks the empty room key: ECMAScript refuses an empty iteration of the optional group. The room name is then `roomNames[""]`, which is `""` as well.
- **Decoding happens in a different order for each field.**
  - A room field is decoded as a whole and then split at `", "` (`Normalizer.RoomTokens`).
  - A group field is split first, and each code is decoded afterwards (`Normalizer.RowGroups`). The number of groups is therefore fixed by the raw text.
  - Inside a room substitution, the captures are decoded a second time.
  - A teacher outside the substitution markup is kept verbatim and not decoded (`Normalizer.ParseTeacher`).
  - Lesson, time, subject, info and message are decoded as a whole before they are read. The model keeps each field's order as the code has it.
- **Rows are read by position.**
  - A row with fewer than eight cells makes parsing fail (`Normalizer.ParseError`). Reading a missing cell gives `undefined`, not a throw. The throw comes from what is done with it:
    - for a row of exactly two cells, `undefined.split` (src/api/gyloh_web_untis.ts:94);
    - for any other short row, `he.decode(undefined)` on the first missing cell that is decoded (src/api/gyloh_web_untis.ts:33-34).
  - The model builds that behaviour of the foreign decoder into `ParseEntry`, because `Decoders.text` is otherwise a total `string -> string`.
  - Cells after the eighth are ignored. The code does not check for an exact field count.
- **Deduplication.**
  - `parseEntries` compares `JSON.stringify` texts. The model compares datatype values instead.
  - `longName` of a group is a getter and is not serialised. It is a function of `shortName` in any case.
- **Dates.**
  - A date is a `(year, month, day)` triple.
  - `parseDate` is modelled up to the ISO text it passes to `Date.parse`.
- **The network is a parameter.** `FetchDays` receives `respond(i, request)`, the response to its `i`-th request.

## Model

| member | source | states |
|---|---|---|
| Substitutions.MatchSound | src/api/gyloh_web_untis.ts:52 | A match splits the text into the opening tag, a first capture, `</span> (`, a second capture and `)`; both captures are non-empty and free of line terminators |
| Substitutions.MatchComplete | src/api/gyloh_web_untis.ts:52 | Every such decomposition is matched, and the first capture is at least as long as the one in any decomposition (the greedy choice) |
| Substitutions.MatchExact | src/api/gyloh_web_untis.ts:52 | When the second part holds no `</span> (`, the captures are exactly the two parts |
| Substitutions.IsSubstitutionExactly | src/api/gyloh_web_untis.ts:54-56 | `isSubstitution(s)` holds iff `s` has the markup form with two non-empty, line-terminator-free captures |
| Substitutions.Capture | src/api/gyloh_web_untis.ts:62-63 | A captured `---` becomes `null` (and only `---` does); any other capture becomes its decoded text |
| Substitutions.SplitSubstitution | src/api/gyloh_web_untis.ts:58-65 | Outside the markup form: `current` is the input verbatim (undecoded) and `subst` is unset. Inside it: each slot is `null` iff its capture is `---`, and otherwise the decoded capture |
| Substitutions.ScenarioSubstNull | src/api/gyloh_web_untis.ts:58-65 | `B204` replacing `---`: current is the decoded `B204`, subst is `null` |
| Substitutions.ScenarioCurrentNull | src/api/gyloh_web_untis.ts:58-65 | `---` replacing `A101`: current is `null`, subst is the decoded `A101` |
| Text.SplitCount | src/api/gyloh_web_untis.ts:68 | `split` with a non-empty separator gives one part more than there are separator occurrences |
| Text.JoinSplit | src/api/gyloh_web_untis.ts:68 | Joining the parts of a `split` with the separator gives the text back: nothing is lost or reordered |
| Text.SplitPartsFree | src/api/gyloh_web_untis.ts:68 | No part of a `split` contains the separator |
| Profiles.MatchProfile | src/models/Group.ts:14 | A match names an entry of the profile table |
| Profiles.MatchProfileSound | src/models/Group.ts:14 | A match is a semester `S1/2` or `S3/4`, `_`, the key of the matched profile, and an optional space plus digits |
| Profiles.MatchProfileComplete | src/models/Group.ts:14 | Every code of that form is matched |
| Profiles.MatchProfileExactly | src/models/Group.ts:14 | The pattern matches iff the code has the profile form |
| Profiles.SameProfileForm | src/models/Group.ts:14 | For a table of space-free, distinct keys, a code has at most one decomposition, so the capture groups are determined |
| Profiles.ParseProfileName | src/models/Group.ts:17-19 | A code the pattern does not match comes back unchanged |
| Profiles.ParseProfileNameMatched | src/models/Group.ts:20-24 | A code of the form gives the semester, a space and the profile's long name, then a space and the number only when there is one |
| Groups.GroupProfilesWellFormed | src/models/Group.ts:2-11 | The eight profile keys contain no space and are pairwise distinct |
| Groups.LongNameUnmatched | src/models/Group.ts:17-19 | `longName` is `shortName` when the code has no profile form |
| Groups.LongNameMatched | src/models/Group.ts:20-24 | `longName` of a code of the form is semester + " " + profile name + optional " " + number |
| Groups.LeEBacktracks | src/models/Group.ts:2-14 | `S3/4_LeE 1` gives `S3/4 History-Profil 1`: the alternation backtracks from `Le` to `LeE` |
| Groups.NatWithoutNumber | src/models/Group.ts:14-24 | `S1/2_Nat` gives `S1/2 NuT-Profil`, with no number part |
| Classes.ClassProfilesWellFormed | src/models/Class.ts:5-14 | The class profile keys contain no space and are pairwise distinct |
| Classes.LongNameUnmatched | src/models/Class.ts:20-22 | `longName` is `shortName` when the code has no profile form; in particular, a profile fragment outside the eight keys leaves the name unchanged |
| Classes.LongNameMatched | src/models/Class.ts:23-27 | `longName` of a code of the form is semester + " " + profile name + optional " " + number |
| Classes.SameAsGroup | src/models/Class.ts:16-28 | For every input, `Class` gives the same long name as `Group` |
| Classes.LeDExample | src/models/Class.ts:30-44 | `S1/2_LeD 2` gives `S1/2 Geschichtsprofil 2` |
| Subjects.MatchCourse | src/models/Subject.ts:46-48 | A match names an entry of the subject table |
| Subjects.CourseTailExact | src/models/Subject.ts:47 | After the subject key, a course type (`g`, `L`, `S<digit>` or none), an optional `_`, optional digits and an optional `P` are read back as exactly that type and number |
| Subjects.CourseTailSound | src/models/Subject.ts:47 | Whatever the matcher reads after the key is such a course type, optional `_`, digit capture and optional `P` |
| Subjects.MatchCourseSound | src/models/Subject.ts:47 | A match decomposes the code into the matched subject key and a course tail |
| Subjects.MatchCourseComplete | src/models/Subject.ts:47 | Every code of the course form is matched |
| Subjects.MatchCourseFirst | src/models/Subject.ts:47 | No subject key listed before the matched one gives the code the course form: the first key that fits wins |
| Subjects.MatchCourseExact | src/models/Subject.ts:47 | A code with the course form for key `i`, and no earlier key that fits, matches key `i` with its course type and number |
| Subjects.MatchCourseExactly | src/models/Subject.ts:47 | The pattern matches iff the code has the course form for some key |
| Subjects.ParseSubject | src/models/Subject.ts:50-52 | A name the pattern does not match comes back unchanged |
| Subjects.ParseSubjectUnmatched | src/models/Subject.ts:50-52 | A name of no course form is its own long name |
| Subjects.ParseSubjectExact | src/models/Subject.ts:53-57 | A matched name gives: the table name; a space iff there is a type or a number; the type's rendering; the digits; and ` (P)` iff the name ends in `P` |
| Subjects.CourseTypeRendered | src/models/Subject.ts:41-44 | `g` renders as `G`, `L` as `L`, and `S<digit>`, which has no table entry, as the text `undefined` |
| Subjects.EndsWithPExactly | src/models/Subject.ts:56 | For a code of the course form, `endsWith("P")` holds iff the form has the trailing `P` |
| Subjects.SubjectKeysShape | src/models/Subject.ts:5-38 | Every subject key is non-empty and does not end in `P` |
| Subjects.ChExample | src/models/Subject.ts:20 | `Ch` gives `Chemie` |
| Subjects.Deg1Example | src/models/Subject.ts:6-7 | `Deg1` gives `Deutsch G1`: `D` is tried first, fails, and the match backtracks to `De` |
| Subjects.DPExample | src/models/Subject.ts:56-57 | `DP` gives `Deutsch (P)` |
| Subjects.Deg1PExample | src/models/Subject.ts:57 | `Deg1P` gives `Deutsch G1 (P)` |
| Subjects.MaS1Example | src/models/Subject.ts:47 | `MaS1` gives `Mathe undefined` |
| Subjects.NewSubject | src/models/Subject.ts:79-82 | `shortName` is the name verbatim; `longName` is `parseSubject` of the name, which `Subjects.ParseSubjectExact` spells out for a matched name, and is the name itself when the pattern does not match |
| Rooms.RoomKeysPrefixFree | src/models/Room.ts:14-29 | No non-empty room key is a prefix of another, so at most one key can begin a given text |
| Rooms.AreaExact | src/models/Room.ts:32 | The area group reads exactly `BR0-` followed by one or more nines, capturing `0-` and the nines |
| Rooms.MatchRoom | src/models/Room.ts:31-33 | A match names a building entry and, if any, a non-empty room key |
| Rooms.MatchRoomSound | src/models/Room.ts:32 | A match decomposes the id into a building key, optional spaces, room key, digits and area, in pattern order |
| Rooms.MatchRoomExact | src/models/Room.ts:32 | An id of the room form is matched with exactly its building, room, number and area |
| Rooms.MatchRoomExactly | src/models/Room.ts:32 | The pattern matches iff the id has the room form |
| Rooms.ParseRoom | src/models/Room.ts:35-37 | An id the pattern does not match comes back unchanged |
| Rooms.ParseRoomUnmatched | src/models/Room.ts:35-37 | An id of no room form is its own long name |
| Rooms.ParseRoomExact | src/models/Room.ts:38-45 | An id of the form gives: the building prefix with a space only when the building name is non-empty; the room name, or `""` without a room; ` ` + number; ` ` + area |
| Rooms.BSp3Example | src/models/Room.ts:5-12 | `BSp3` gives `Sporthalle 3`; building `B` adds no prefix |
| Rooms.L101Example | src/models/Room.ts:43-45 | `L101` gives `Lichthof`, two spaces, `101` |
| Rooms.FExample | src/models/Room.ts:45 | A lone `F` gives `Forum ` |
| Rooms.BExample | src/models/Room.ts:45 | A lone `B` gives the empty text |
| Rooms.B101BR12Unchanged | src/models/Room.ts:32 | `B101BR12` has no room form (the area must be `0-` and nines) and is returned unchanged |
| Rooms.NewRoom | src/models/Room.ts:67-70 | `shortName` is the id verbatim; `longName` is fixed at construction to `parseRoom` of the id: the long name of the id's room form when it has one, and the id itself otherwise |
| Entries.Entry.Affects | src/models/Entry.ts:26-28 | `affects(g)` holds iff `g` is an element of `groups`; false for an entry without groups |
| Entries.NewEntry | src/models/Entry.ts:13-24 | The corrected constructor copies all eight parsed fields, rooms included |
| Entries.NewEntryInjective | src/models/Entry.ts:13-24 | Equal entries come only from equal fields: the corrected constructor drops nothing |
| Entries.StoredAsWritten | src/models/Entry.ts:13-24 | The constructor as written copies lesson, time, groups, subject, teacher, info and message; `room`, `substRoom` and `substTeacher` are absent because the parser's object does not have them |
| Entries.AsWrittenLosesRooms | src/api/gyloh_web_untis.ts:91-100 | As written, rows that differ only in their rooms give equal objects, while the corrected entries differ |
| Plans.DayPlan.IsAffected | src/models/DayPlan.ts:16-18 | `isAffected(g)` holds iff `g` is an element of `affectedGroups` |
| Plans.DayPlan.EntriesFor | src/models/DayPlan.ts:20-23 | Empty when `g` is not affected; otherwise an order-preserving subsequence of `entries` whose every element affects `g`, holding each affecting entry as often as `entries` does |
| Plans.Affecting | src/models/DayPlan.ts:22 | The filter keeps order (it is a subsequence), keeps only entries that affect the group, and keeps every occurrence of each such entry: its multiset is that of the affecting entries of the list |
| Plans.AffectingDistinct | src/models/DayPlan.ts:22 | Filtering a list without repeats gives a list without repeats |
| Plans.AffectingMembers | src/models/DayPlan.ts:22 | An entry is in the filtered list iff it is in the list and affects the group |
| Plans.AffectingAll | src/models/DayPlan.ts:22 | When every entry affects the group, the filter returns the whole list |
| Plans.EntriesForMembers | src/models/SubstitutionPlan.ts:64-67 | An entry is listed for `g` iff `g` is affected, the entry is in the plan and it affects `g`; no entry that affects an affected group is dropped |
| Plans.NewGroups | src/api/gyloh_web_untis.ts:112-114 | As written: each code gets a new `Group` object holding its group, in order, with a reference from `next` to `next + n - 1`, where `n` is the number of codes |
| Plans.NewEntryGroups | src/api/gyloh_web_untis.ts:94 | As written: each row's group cell gets new objects, one per group, in order, all with references from `next` on, above those of the objects made before them |
| Plans.Holding | src/models/DayPlan.ts:22 | As written: the positions listed are exactly those of the entries whose groups hold the very object `g` |
| Plans.EntriesForByReference | src/models/DayPlan.ts:20-23 | As written: nothing when the object `g` is not one of the affected objects; otherwise exactly the entries holding that object |
| Plans.ParsedEntriesForEmpty | src/api/gyloh_web_untis.ts:120-128 | As written: for the objects of a parsed plan (affected groups first, then the entries' groups), `entriesFor` is empty for every group object |
| Sequences.SubsequenceElements | src/models/DayPlan.ts:22 | Every element of a subsequence is an element of the full list |
| Sequences.Unique | src/api/gyloh_web_untis.ts:105-109 | Deduplication leaves no two equal elements, keeps every element of the input, and is a subsequence of the input |
| Sequences.UniqueFirstOrder | src/api/gyloh_web_untis.ts:106-108 | The kept elements appear in the order of their first occurrences |
| Sequences.UniqueOfDistinct | src/api/gyloh_web_untis.ts:105-109 | A list without duplicates is left unchanged |
| Sequences.UniqueIdempotent | src/api/gyloh_web_untis.ts:105-109 | Deduplicating the result again changes nothing |
| Sequences.UniquePair | src/api/gyloh_web_untis.ts:105-109 | Of two equal elements one is kept; of two different elements both are kept, in order |
| WebUntis.IsoDate | src/api/webuntis.ts:78 | The date part of `toISOString()` is ten characters, with dashes at positions 4 and 7 |
| WebUntis.FormatDate | src/api/webuntis.ts:77-79 | The ISO date without dashes, read as a number, is `year*10000 + month*100 + day` |
| WebUntis.FormatDateDecodes | src/api/webuntis.ts:77-79 | The year, month and day are `code/10000`, `(code/100)%100` and `code%100` |
| WebUntis.FormatDateInjective | src/api/webuntis.ts:77-79 | Different valid dates get different codes |
| WebUntis.FormatDateText | src/api/webuntis.ts:78 | For a four-digit year, the code's decimal text is the eight digits `YYYYMMDD` |
| WebUntis.FormatDateExample | src/api/webuntis.ts:77-79 | 2024-01-15 is sent as `20240115`, and its ISO date is `2024-01-15` |
| WebUntis.WebUntisResponse.HasData | src/api/webuntis.ts:31-33 | `hasData` holds iff the payload list is non-empty |
| WebUntis.WebUntisResponse.HasError | src/api/webuntis.ts:35-37 | `hasError` holds iff an error is set |
| WebUntis.NewResponse | src/api/webuntis.ts:26-29 | A `null` payload list is stored as the empty one, and the error is kept |
| WebUntis.ParseResponse | src/api/webuntis.ts:44-54 | Always one payload, so `hasData` holds. A falsy body gives `[null]` and a communication error. Otherwise the payload is `[payload]`, with an error iff the body has one, carrying its message, data and code |
| WebUntis.PaginateEnds | src/api/webuntis.ts:141-176 | From a linked state, the run ends in `Ended`: at most `num` more requests, each after the first sent to the `nextDate` of the response before it; a response that still names a next date ends the loop only when the `num` requests are used up; the outcome is `Finish` of the last response: its error with the payloads before it, no error when it has no data, a throw on a `null` payload, and otherwise every payload in order |
| WebUntis.EndedOutcome | src/api/webuntis.ts:106-129 | At the end: every returned payload is the non-null first payload of its request's response, in order; an error is returned iff the last response had one, and then it is that error, with one payload fewer than requests; the loop throws iff the last response had no error, had data, and its payload was `null` |
| WebUntis.ErrorNotDropped | src/api/webuntis.ts:119-122 | A first response that reports an error cannot end with an empty, error-free result |
| WebUntis.ContinuesNotEnded | src/api/webuntis.ts:126-127 | After a response that names a next date, the loop cannot stop while requests remain |
| WebUntis.FetchDays | src/api/webuntis.ts:103-177 | The loop of `getTablesMinimal` and `getSubstitution` (the `kind` argument picks the request body) is `Paginate` from `formatDate(date)`, and its end state satisfies `Ended` with the limit `num` (none for `num <= 0`): no request and an empty, error-free result for `num <= 0`, and otherwise the facts of `EndedOutcome` and `PaginateEnds` |
| Normalizer.ParseDateAsWritten | src/api/gyloh_web_untis.ts:41-45 | As written: the decoded text `t` gives the ISO text `t[0..4] + "-" + t[3..5] + "-" + t[5..7]` |
| Normalizer.ParseDate | src/api/gyloh_web_untis.ts:41-45 | Corrected: the decoded text `t` gives the ISO text `t[0..4] + "-" + t[4..6] + "-" + t[6..8]` |
| Normalizer.DateTextAsWritten | src/api/gyloh_web_untis.ts:43 | As written, the ISO text is `t[0..4] + "-" + t[3..5] + "-" + t[5..7]` |
| Normalizer.ParseDateAsWrittenMisreads | src/api/gyloh_web_untis.ts:41-45 | As written, the wire date `20240115` is read as `2024-40-11` |
| Normalizer.ParseDateAsWrittenNoRoundTrip | src/api/gyloh_web_untis.ts:41-45 | As written, reading the code of 2024-01-15 does not give its ISO date |
| Normalizer.DateText | src/api/gyloh_web_untis.ts:43 | Corrected: the ISO text is `t[0..4] + "-" + t[4..6] + "-" + t[6..8]` |
| Normalizer.ParseDateRoundTrip | src/api/gyloh_web_untis.ts:41-45 | Corrected: for a four-digit year, reading the decimal text of `formatDate(dt)` gives the ISO date of `dt` |
| Normalizer.RoomSlot | src/api/gyloh_web_untis.ts:72-75 | A slot holds a room iff its text is present and non-empty (truthy), and that room is built from the text; otherwise the slot is unset, never `null` |
| Normalizer.RoomOf | src/api/gyloh_web_untis.ts:69-77 | A token outside the markup becomes `Room(token)`. A markup token becomes a substitution whose slots hold rooms exactly for the captures that are not `---` and decode to non-empty text |
| Normalizer.RoomTokens | src/api/gyloh_web_untis.ts:68 | The field is decoded before it is split. There is one token more than there are `", "` in the decoded text. The tokens, joined, give the decoded text back, and none holds `", "` |
| Normalizer.ParseRooms | src/api/gyloh_web_untis.ts:67-79 | The result is non-empty, has one room field per token (separator count plus one), and keeps token order |
| Normalizer.ParseTeacher | src/api/gyloh_web_untis.ts:81-84 | A text outside the markup is returned verbatim, undecoded. Markup is split: each slot is `null` iff its capture is `---`, and otherwise the decoded capture |
| Normalizer.ParseGroups | src/api/gyloh_web_untis.ts:112-114 | One group per code, in order, each with the decoded code as its short name |
| Normalizer.RowGroups | src/api/gyloh_web_untis.ts:94 | The group cell is split before decoding: the raw text's separator count plus one groups, each the decoded part |
| Normalizer.ParseEntry | src/api/gyloh_web_untis.ts:90-101 | Corrected: fails iff the row has fewer than eight cells. Otherwise cells 0 to 7 become: lesson (numeric value of the decoded text), time, groups, subject, rooms (at least one), teacher, info and message |
| Normalizer.ParseEntryAsWritten | src/api/gyloh_web_untis.ts:90-101 | As written: fails iff the row is short; otherwise the stored object has no `room`, `substRoom` or `substTeacher` and agrees with the corrected entry on every other field |
| Normalizer.RoomRowsMergedAsWritten | src/api/gyloh_web_untis.ts:103-110 | As written, two rows that agree on every cell but the room cell give equal objects, and deduplication keeps one; the corrected entries are both kept when the room fields differ |
| Normalizer.ParseRows | src/api/gyloh_web_untis.ts:104 | Fails iff some row is short; otherwise one entry per row, each the row's parsed entry |
| Normalizer.ParseEntries | src/api/gyloh_web_untis.ts:103-110 | Corrected: the result is `Unique` of the rows' entries: no two equal entries, every row's entry present, a subsequence of the rows' entries |
| Normalizer.KeepFirst | src/api/gyloh_web_untis.ts:105-109 | The `forEach` loop pushes exactly `Unique` of the entries: first occurrences, in order of first occurrence |
| Normalizer.ParseMessages | src/api/gyloh_web_untis.ts:116-118 | One message per raw message, in order, with its subject and body decoded |
| Normalizer.ParseDayPlan | src/api/gyloh_web_untis.ts:120-128 | Corrected: fails iff some row is short. Otherwise: the date from the decimal text of the payload's date with the corrected offsets; the decoded update time; the affected groups and messages; the deduplicated entries, with no duplicates |
| Normalizer.ParseDayPlanDate | src/api/gyloh_web_untis.ts:122 | Corrected: the plan for a payload whose date is `formatDate(dt)` is dated with the ISO text of `dt` |
| Normalizer.ParseDayPlanEntriesFor | src/api/gyloh_web_untis.ts:126 | Corrected, with groups compared by value: every row's entry that affects a group the plan concerns is listed in `entriesFor` of that group, and that list has no repeats |

## Left out

- HTTP transport is left out. This covers `untisRequest`, the POST with its headers and JSON body, and the thin wrappers `getFormat`/`getTicker`. It is I/O. Each response is the parameter `respond` of `FetchDays`.
- `he.decode` and `Number.parseInt` are not modelled. They come from a foreign library and the runtime. They are parameters (`Normalizer.Decoders`).
- `Date`, `Date.parse`, time zones and the time of day are not modelled; dates are calendar triples. The parsed plan's date is an ISO text. In `Normalizer.ParseDayPlan` it is the text the corrected `parseDate` builds; the code as written builds `Normalizer.DateTextAsWritten` (see Findings).
- `getPlan` is not modelled. It reads `response.payload`, which `WebUntisResponse` does not have, so it is broken glue. `parseDayPlan` is modelled on a payload directly.
- `src/models/TimeTable.ts`, `src/index.ts` and `GylohWebUntisParsingError` (never thrown) are not part of this model. Neither are error-message strings, apart from the communication error's text.
- async/await is not modelled. The code is strictly sequential.
- Entries.Entry.Affects: compares groups by value, because that is the evidently intended behaviour. The source's `includes` compares object identity. `parseGroups` builds new `Group` objects for the affected groups (src/api/gyloh_web_untis.ts:124) and for each entry's groups (:94), so as written `entriesFor` of a parsed plan is always empty (`Plans.ParsedEntriesForEmpty`, see Findings).
- Plans.DayPlan.IsAffected: compares groups by value, for the same reason. As written, only the very objects of `affectedGroups` are affected, and a group built by a caller never is.
- Normalizer.ParseEntry: models the corrected constructor, which keeps the rooms. As written the rooms are dropped (`Normalizer.ParseEntryAsWritten`, see Findings).
- Normalizer.ParseEntries: deduplicates corrected entries, so rows that differ only in their rooms stay apart. As written they are merged (`Normalizer.RoomRowsMergedAsWritten`).
- Normalizer.ParseDayPlan: uses the corrected `parseDate`. As written, the wire date `20240115` is read as `2024-40-11` (`Normalizer.ParseDateAsWrittenMisreads`).
- Normalizer.ParseDayPlanDate: holds only for the corrected `parseDate`; as written it fails (`Normalizer.ParseDateAsWrittenNoRoundTrip`).
- Normalizer.ParseDayPlanEntriesFor: holds for groups compared by value. As written it holds only vacuously, because `entriesFor` of a parsed plan is empty (`Plans.ParsedEntriesForEmpty`).
- Normalizer.ParseEntries: `some(ue => JSON.stringify(e) === JSON.stringify(ue))` is modelled as membership under datatype equality.
- WebUntis.FetchDays: requires a date with a year in 0..9999. Outside that range `toISOString` writes six-digit years. The model also covers only an integral `num`, and a `nextDate` that is a number or `null`. A missing `nextDate` (sent as `undefined`) is not modelled.
- WebUntis.FetchDays: takes `num` as an argument. The default `num = 1` of `getTablesMinimal` and `getSubstitution` (src/api/webuntis.ts:101,136) is a TypeScript default parameter; a caller that leaves `num` out is `FetchDays` with `num = 1`.
- Normalizer.ParseDateRoundTrip: holds only for years 1000..9999. For smaller years the decimal text of the code is shorter than eight digits.
- Normalizer.ParseRooms: written as a function. The source's `let current`/`subst` assignments are conditional initialisations inside a `map`, not a loop.

## Findings

| source | as written | input that shows it | evidently intended | confidence | as-written member | corrected member |
|---|---|---|---|---|---|---|
| src/api/gyloh_web_untis.ts:43 | ISO text from `substr(0, 4)`, `substr(3, 2)`, `substr(5, 2)` | wire date `20240115` gives `2024-40-11` | slices at offsets 0, 4 and 6, giving `2024-01-15` | not executed | Normalizer.ParseDateAsWrittenNoRoundTrip | Normalizer.ParseDateRoundTrip |
| src/models/Entry.ts:13-24 | the constructor copies `room`, `substRoom` and `substTeacher`, but `parseEntry` passes `rooms`, which is dropped | two rows that differ only in their room cells give equal entries, and `parseEntries` then keeps only one of them | the entry keeps the parsed `rooms` | not executed | Normalizer.RoomRowsMergedAsWritten | Entries.NewEntryInjective |
| src/models/DayPlan.ts:16-23 | `isAffected` and `affects` use `includes`, which compares object references, while `parseDayPlan` builds separate `Group` objects for `affectedGroups` and for each entry's groups | a payload whose `affectedElements` holds `5a` and whose one row has group cell `5a`: `entriesFor(plan.affectedGroups[0])` is empty | groups compared by their short names, so that the entry is listed | not executed | Plans.ParsedEntriesForEmpty | Plans.EntriesForMembers |
