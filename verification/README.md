# QR check-in console and address selection, modelled in Dafny

This project models the pure logic of a QR-code attendance system's client
and its development-server helper:

- **Address selection** (`get-ip.js`, module `NetworkAddress`). The helper
  lists the machine's external IPv4 addresses in interface order. If the
  `PREFERRED_IP` environment variable is set and non-empty, that value wins.
  Otherwise four prefix rules are tried in a fixed order: `192.168.50.`,
  then `192.168.`, then `10.`, then `172.16.`–`172.31.`. The first address
  matching the first rule that matches anything is chosen. If no rule
  matches, the first address is used, and with no address at all the result
  is `127.0.0.1`. The interface table and the environment variable are
  parameters here.
- **Participant list** (`src/App.tsx`, module `Roster`). The fetched rows
  are keyed by id, and the last row with a given id wins. Keys keep the
  order in which they were first inserted. The values are stably sorted,
  newest first, by the time of the *first* stored check-in, with 0 for a
  missing or empty history. Then they are keyed by id again, which changes
  nothing. The code's comment says "latest check-in", but the comparator
  reads `checkIns[0]`; the model follows the code, and
  `Roster.SortsByFirstCheckIn` shows the consequence. `Array.prototype.sort`
  is stable, and `Roster.StableSortIsUnique` proves that a stable sort has
  only one possible result. So the insertion sort used here gives the same
  list as the engine's sort.
- **Check-in console** (`src/App.tsx`, module `CheckInView`). This covers:
  - the "signed today" flag: some check-in at or after local midnight;
  - the branches of `checkParticipant` on a check-in reply: a shown
    participant, a reply without a participant, an HTTP error, no response,
    and a participant without a history, where `.some` throws and the
    `catch` block runs;
  - the list refresh that a shown reply waits for;
  - the guard of the manual-entry form.

  Each HTTP reply is a parameter. The clock enters only as the start of the
  current local day.

Timestamps are integers (milliseconds) that the caller has already parsed.
Strings are `seq<char>`. `Text` holds the shared string helpers: the
anchored prefix test, JavaScript's `trim` whitespace set, and the decimal
text of a number.

The status line of a shown reply is `ID: <id> - <message>`. When the reply
is flagged as a duplicate, ` (重複簽到)` is added at the end. For a given id
and message, the flagged and unflagged lines differ, and the flag holds
exactly when the line is the flagged one. From the line alone the flag
cannot be told apart if the server's message already ends with the suffix.

## Model

| member | source | states |
|---|---|---|
| NetworkAddress.GetNetworkInterfaces | get-ip.js:3-16 | the nested loops push exactly the IPv4, non-internal addresses, tagged with their interface name, in table order; loop invariants tie them to the reference list `Candidates` |
| NetworkAddress.CandidatesMembership | get-ip.js:7-13 | a candidate is in the list iff some interface of that name has an address entry with family `IPv4`, not internal, and that address |
| NetworkAddress.ExternalOfMembership | get-ip.js:8-12 | within one interface, a candidate is kept iff it carries that interface's name and the address of one of its IPv4 non-internal entries |
| NetworkAddress.ExternalOf | get-ip.js:8-12 | one interface contributes at most one candidate per address entry, each carrying that interface's name |
| NetworkAddress.Candidates | get-ip.js:7-13 | every candidate is named after an interface of the table (membership in full: `CandidatesMembership`) |
| NetworkAddress.Matches | get-ip.js:32-36 | the four rules as prefix tests; a `192.168.50.` match is also a `192.168.` match, and a `172.` match has at least seven characters and starts `172.` (the octet range: `Private172IsSecondOctet16To31`) |
| NetworkAddress.PreferredIPOverride | get-ip.js:26-29 | a `PREFERRED_IP` of `""` gives the same address as no variable at all, and any non-empty value is returned whatever the interfaces are |
| NetworkAddress.Find | get-ip.js:40 | `find` returns nothing iff no candidate satisfies the rule, otherwise the position of the first one that does |
| NetworkAddress.SelectFrom | get-ip.js:39-45 | the rule loop returns nothing iff no rule matches any candidate; otherwise the first matching rule, every earlier rule matching nothing, and the first candidate for it |
| NetworkAddress.LocalIP | get-ip.js:18-55 | a non-empty `PREFERRED_IP` is returned verbatim; without it the result is `127.0.0.1` when there is no candidate and otherwise one of the candidates' addresses |
| NetworkAddress.LocalIPPicksFirstOfFirstTier | get-ip.js:32-45 | with no override, if rule k is the first rule that any candidate satisfies, the result is the first candidate satisfying rule k |
| NetworkAddress.Subnet50Wins | get-ip.js:32-44 | with no override, whenever some candidate starts `192.168.50.`, the first such candidate is chosen |
| NetworkAddress.FallsBackToFirstCandidate | get-ip.js:47-51 | with no override and no rule matching, the first candidate is chosen |
| NetworkAddress.TiersAreStrictlyOrdered | get-ip.js:32-45 | if the chosen address satisfies rule k and no earlier rule, then no candidate satisfies any earlier rule |
| NetworkAddress.TenOnlyWithout192 | get-ip.js:32-45 | a chosen `10.` address means no candidate starts `192.168.` (nor `192.168.50.`) |
| NetworkAddress.Private172OnlyWithoutEarlierTiers | get-ip.js:32-45 | a chosen `172.16-31.` address means no candidate satisfies any of the three earlier rules |
| NetworkAddress.Private172IsSecondOctet16To31 | get-ip.js:36 | the `172.` rule holds iff the address starts with `172.`, then the decimal text of some n in 16..31, then `.` |
| NetworkAddress.Private172Boundaries | get-ip.js:36 | `172.15.`, `172.32.` and `172.160.` never match the rule; `172.16.` and `172.31.` always do |
| Roster.Put | src/App.tsx:104 | one keyed assignment keeps ids distinct, adds the row's id, holds the new row, and every other entry was there before; where the key goes is `Roster.PutKeyOrder` |
| Roster.KeyById | src/App.tsx:102-105 | keying the rows gives distinct ids and exactly the ids of the rows |
| Roster.KeyByIdLastWins | src/App.tsx:102-105 | every keyed entry is the last row that carries its id |
| Roster.KeyByIdOrder | src/App.tsx:102-105 | keyed entries are listed in the order in which their ids first appear among the rows |
| Roster.KeyByIdCount | src/App.tsx:130-148 | the number of keys equals the number of distinct ids among the rows |
| Roster.PutKeyOrder | src/App.tsx:104 | an assignment leaves the key order alone for an existing id and appends a new id at the end |
| Roster.KeyByIdOfDistinct | src/App.tsx:114-117 | re-keying a list whose ids are already distinct returns it unchanged, so the sorted order survives |
| Roster.PutAppendsNewId | src/App.tsx:115-116 | assigning a new id appends its row at the end |
| Roster.SortKeyIgnoresLaterCheckIns | src/App.tsx:109-110 | appending a check-in to a non-empty history leaves the sort key unchanged, so a later check-in never moves a participant up; only a first check-in sets the key |
| Roster.Insert | src/App.tsx:108-112 | inserting into a newest-first list keeps it newest first and adds exactly the one participant |
| Roster.SortByKey | src/App.tsx:108-112 | the sorted list is non-increasing in the first-check-in key and is a permutation of its input |
| Roster.SortIsStable | src/App.tsx:108-112 | for every key, the participants with that key appear in the output in their input order (all participants with no check-in included) |
| Roster.StableSortIsUnique | src/App.tsx:108-112 | two newest-first lists that agree on the order within every key are equal, so any stable sort yields `SortByKey` |
| Roster.SortKeepsIds | src/App.tsx:108-112 | sorting keeps the length, the set of ids and their distinctness |
| Roster.SortsByFirstCheckIn | src/App.tsx:109-110 | a participant with check-ins at 1 and 5 is listed after one with a single check-in at 3: the key is the first stored check-in |
| Roster.ParticipantsView | src/App.tsx:99-119 | the stored list is newest first, has one entry per distinct fetched id, and each entry is the last fetched row with that id |
| Roster.ViewIsSortedKeyed | src/App.tsx:114-117 | keying the sorted list by id again returns the sorted list itself, whose entries are the last fetched rows with their ids |
| Roster.ParticipantsViewStable | src/App.tsx:108-117 | within each key, the stored list keeps the order in which the ids were first inserted |
| Roster.ParticipantsViewPermutes | src/App.tsx:108-117 | the stored list is a permutation of the keyed rows |
| CheckInView.SignedToday | src/App.tsx:190-194 | signed today iff some check-in time is at or after the start of the current local day |
| CheckInView.NotSignedWithoutCheckIns | src/App.tsx:722-726 | an empty history is never signed today |
| CheckInView.SignedTodayAppend | src/App.tsx:722-726 | after a check-in is appended, the flag holds iff it held before or the new check-in is today; it never turns from true to false |
| CheckInView.SignedTodayAntitone | src/App.tsx:190-194 | signed since a given midnight implies signed since every earlier one |
| CheckInView.StatusLine | src/App.tsx:199 | the status line starts with `ID: <id> - <message>`; for a duplicate reply the rest is exactly ` (重複簽到)`, otherwise there is nothing more |
| CheckInView.StatusLineShowsDuplicate | src/App.tsx:199 | for a fixed id and message the duplicate and plain lines differ, and the difference is the ` (重複簽到)` suffix |
| CheckInView.CheckFailed | src/App.tsx:211-219 | the `catch` block clears the shown participant, sets the status to `ID: <id> - 檢查參與者時發生錯誤` and the error to the given message, changing nothing else |
| CheckInView.FetchParticipants | src/App.tsx:99-125 | a delivered list becomes the stored newest-first list with one entry per id, each the last fetched row with that id, ties in first-insertion order, and clears the error; a failure only sets the error message; no other field changes |
| CheckInView.FetchParticipantsOnLogin | src/App.tsx:127-154 | a delivered list has exactly the effect of the refresh, plus `totalPeople` set to the number of distinct fetched ids; a failure is the refresh's failure |
| CheckInView.CheckParticipant | src/App.tsx:168-219 | the status always names the submitted id. A participant is shown iff the reply carries one with a history, and its `id` is the submitted id, not the server's. Its signed-today flag is then correct, the duplicate suffix appears iff flagged, the counts come from the reply, and the entry field and the error are cleared. A reply without a participant shows `ID: <id> - <message>`. The status of a shown reply is exactly `ID: <id> - <message>` plus the suffix when flagged, and the stored list is the refreshed one, or the old one when the refresh fails. A missing history, an HTTP error or no response gives `ID: <id> - 檢查參與者時發生錯誤` and the error `錯誤：<status> - <message>` for an HTTP error, `發生未知錯誤` otherwise. Without a shown participant the counts, entry field and list are unchanged |
| CheckInView.RefreshErrorIsOverwritten | src/App.tsx:204-210 | after a shown reply, a failed list refresh leaves no error on screen and keeps the old list |
| CheckInView.ManualSubmit | src/App.tsx:156-162 | text made only of spaces changes nothing; otherwise the result is `checkParticipant` run on the untrimmed text, followed by clearing the field |
| CheckInView.ManualSubmitKeepsSpaces | src/App.tsx:158-159 | an entry `" 42 "` is submitted with its spaces |
| Text.Trim | src/App.tsx:158 | `trim()` cuts only whitespace and only at the two ends, and what is left neither starts nor ends with whitespace |
| Text.TrimEmptyIffAllSpace | src/App.tsx:158 | `trim()` yields the empty string iff every character is JavaScript whitespace or a line terminator |

## Left out

- The operating-system query, the `PREFERRED_IP` read and the console logging in get-ip.js (lines 4, 20-23, 26-28, 42, 49, 53, 58) are I/O. The table and the variable are parameters.
- Node versions that report `family` as the number 4 instead of `'IPv4'` are not modelled. The model's `family` is a string, so such entries never match, as in the code.
- generate-cert.js is a call into a certificate library and file writes; it is not part of this model.
- The server's check-in decisions (lookup, validity, duplicate flag, daily counter, roster upload and clear, export) are not in these source files. The console only reads the fields they produce, so the model does not invent them.
- React state hooks, effects, rendering, the loading flag, the 5-minute polling (src/App.tsx:453-456) and the auto-scan timer (src/App.tsx:222-224) are UI and timers.
- Camera enumeration and authorization, QR decoding, the HTTP client and the file download are device I/O and foreign libraries. HTTP results enter as `Response` parameters.
- `formatToHKTime` and the export file name use locale and time-zone formatting.
- Parsing ISO timestamp strings is left out: times are integers, and an unparsable string (NaN) is not modelled.
- JavaScript enumerates integer-like object keys (such as `"1001"`) in ascending numeric order before other keys. The model lists keys in insertion order, which holds for other ids. With integer-like ids, the re-keying at src/App.tsx:114-117 would undo the sort; this is not modelled.
- The comparator subtracts two doubles. The model compares integer keys, which matches for real timestamps.
- The list table (src/App.tsx:722-726) calls `.some` on each row's history and would throw on a missing one. That rendering is not modelled; `SignedToday` is the predicate it computes.
- The server participant is spread into the shown record, so any extra fields it carries are copied too. The model's `Participant` has the fixed fields of the client's interface.
- A `message` missing from a reply would print as `undefined`. The model's message is always a string.
- The password gates (src/App.tsx:286, 336) are local string comparisons against a fixed password and are left out.
- Other handlers are left out. Each is one HTTP round trip followed by fixed state updates:
  - the file upload (src/App.tsx:234-263) sets an upload status, awaits the modelled refresh `fetchParticipants`, then copies `totalPeople` from its reply and clears the error;
  - the clear (src/App.tsx:265-282) clears the shown participant, the error and the list, and copies `totalPeople` from its reply;
  - the mode switch (src/App.tsx:334-356) on `success` sets the demo flag it computed itself and writes a fixed mode text into the status line; otherwise it sets an error;
  - the counter reset (src/App.tsx:428-441) on `success` sets the daily count to 0 and writes a fixed status text; otherwise it sets an error;
  - the fetches of `totalPeople`, the daily count and the activity name (src/App.tsx:374-382, 418-426, 461-469) copy one reply field into state.
- After login, `fetchTotalPeople()` runs right after `fetchParticipantsOnLogin()` (src/App.tsx:288-289) and, when it succeeds, replaces `totalPeople` with the server's count (src/App.tsx:377). `FetchParticipantsOnLogin` states `totalPeople` only at the end of that one fetch, not after the whole login.
- Overlapping check-ins are not modelled. `handleScan` starts `checkParticipant` without awaiting it (src/App.tsx:397), and in auto-scan mode the scanner stays on (src/App.tsx:398-401). Two calls can then interleave their state updates at the awaits (src/App.tsx:174, 204), so the status, the shown participant and the list can come from different calls. `CheckParticipant` describes one call running alone.
