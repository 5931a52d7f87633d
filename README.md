# Lesson-balance ledger

A Dafny model of the lesson-credit tracker of a personal-training roster. The
application holds two collections: the student registry and the activity log.
The log is kept newest first. Six handlers transform the pair:

- register a student;
- edit a profile;
- delete a student, which also deletes that student's entries;
- check a student in;
- deposit (renew) lessons;
- reverse a log entry.

Two read-only views are derived from the registry: the name search and the
total / active / overdue counters.

The central law is the ledger invariant. For every student, the sum of
`adjustment` over the log entries with that student's id equals
`lessonBalance`. The model proves that every handler preserves it. The proofs
also carry four more invariants:

- student ids are unique;
- log ids are unique;
- every entry refers to a registered student;
- `cycleExpiration` is always `lastPaymentDate + CYCLE_DAYS`.

Files and modules:

- `types.dfy` (`Types`): `PackageSize`, `Action`, `Student` and `AttendanceLog`.
- `seqs.dfy` (`Seqs`): the array `map`, `filter` and `find` the handlers are
  written with, as recursive functions. `Filter` is proved to return an
  order-preserving subsequence that keeps every matching element with all its
  occurrences and nothing else.
- `ledger.dfy` (`Ledger`): the state `State(students, logs)`, one pure
  transition per handler, the invariant `WellFormed`, and its preservation
  lemmas. It also holds the lemmas showing that a reversal undoes a check-in
  exactly, and undoes a deposit's balance change and log entry but not its
  new payment date and cycle end.
- `dashboard.dfy` (`Dashboard`): the case-insensitive substring filter and
  the statistics.
- `roster.dfy` (`Roster`): the class `App`. It owns the two collections as
  `seq` fields and has one method per handler. Each method replaces both
  fields atomically and keeps `WellFormed` as its object invariant.
- `scenario.dfy` (`Scenario`): a worked example (register, check in three
  times, reverse one check-in, renew). It also proves a lemma about a registry
  with a single student.

Time is an abstract integer counted in days, and every handler takes the
current time `now` as a parameter. So registration and deposit set
`cycleExpiration = now + CYCLE_DAYS` with `CYCLE_DAYS = 20`. The source's
random ids become caller-supplied ids. The class methods and the preservation
lemmas require a new log id to be unused, and a new student id to be
unregistered.

## Model

| member | source | states |
|---|---|---|
| `Types.PackageIsPositive` | types.ts:2 | a package size is one of 4, 8, 12, 16, 20, so it is positive and at most 20 |
| `Seqs.Map` | App.tsx:76-77 | the array `map` the handlers use keeps the length and applies the step function at every position on its own |
| `Seqs.FilterSpec` | App.tsx:87-88 | the array `filter` the handlers use returns an order-preserving subsequence of its input holding every element that passes, with all its occurrences, and nothing else |
| `Ledger.CYCLE_DAYS` | App.tsx:11 | a payment cycle lasts 20 days; registration and deposit set the cycle end to now + `CYCLE_DAYS` |
| `Ledger.FindStudent` | App.tsx:99-100 | the first registry position whose id matches, or none when no student has that id |
| `Ledger.FindEntry` | App.tsx:147-148 | the first log position whose id matches (the log's `find`), or none when no entry has that id |
| `Ledger.AddStudent` | App.tsx:47-73 | the new student is appended after the unchanged registry with balance = package, payment date = now and cycle end = now + 20; exactly one DEPOSIT entry of +package for the new id is prepended to the unchanged log |
| `Ledger.AddStudentPreserves` | App.tsx:52-71 | registering a fresh id with a fresh log id keeps the ledger invariant, unique ids, no orphan entries and paired cycle dates |
| `Ledger.UpdateStudent` | App.tsx:75-79 | the edit maps both collections, so the registry and the log keep their lengths; what changes at each position is `Ledger.UpdateStudentSpec` |
| `Ledger.UpdateStudentSpec` | App.tsx:75-79 | only name and package of the matching student change (balance and dates stay); `studentName` is rewritten on exactly the entries with that `studentId`; every other student and entry is unchanged |
| `Ledger.UpdateStudentPreserves` | App.tsx:76-77 | an edit keeps every invariant, because the relabelled log has the same balances |
| `Ledger.BalanceRelabel` | App.tsx:77 | rewriting the copied names leaves every student's adjustment sum unchanged |
| `Ledger.DeleteStudent` | App.tsx:86-93 | afterwards the id is not registered and no log entry refers to it |
| `Ledger.DeleteStudentSpec` | App.tsx:86-93 | the registry and log become order-preserving subsequences that lose exactly the student and exactly the entries with that id, every other element keeping all its occurrences |
| `Ledger.DeleteStudentPreserves` | App.tsx:87-88 | the cascade delete keeps every invariant |
| `Ledger.BalanceWithoutStudent` | App.tsx:88 | the cascade leaves every other student's adjustment sum unchanged |
| `Ledger.HandleCheckIn` | App.tsx:97-115 | the registry keeps its length; an unknown id changes nothing; for a registered id, one CHECK_IN entry of -1 carrying the student's name is prepended to the unchanged log |
| `Ledger.HandleCheckInSpec` | App.tsx:99-114 | the matching student's balance drops by exactly 1, with no floor, and every other student is unchanged |
| `Ledger.HandleCheckInPreserves` | App.tsx:99-114 | a check-in with a fresh log id keeps every invariant |
| `Ledger.HandleDeposit` | App.tsx:117-143 | the registry keeps its length; an unknown id changes nothing; for a registered id, one DEPOSIT entry of `amount` is prepended to the unchanged log |
| `Ledger.HandleDepositSpec` | App.tsx:118-142 | the matching student's balance rises by `amount`, its payment date becomes now and its cycle end now + 20 (overwritten, not extended); every other student is unchanged |
| `Ledger.HandleDepositPreserves` | App.tsx:122-142 | a deposit with a fresh log id keeps every invariant |
| `Ledger.DeleteLog` | App.tsx:146-163 | an id no entry carries changes nothing; the registry keeps its length |
| `Ledger.Reversal` | App.tsx:154-159 | the confirmed reversal of entry `e`: the registry keeps its length and the log does not grow |
| `Ledger.ReversalStudents` | App.tsx:154-158 | reversing `e` moves only the students with `e`'s `studentId`, each by exactly minus `e`'s adjustment; with no such student the registry is unchanged |
| `Ledger.ReversalEntries` | App.tsx:159 | reversing `e` leaves an order-preserving subsequence of the log that loses exactly the entries with `e`'s id |
| `Ledger.ReversalShrinks` | App.tsx:159 | with unique log ids, reversing an entry shortens the log by exactly one |
| `Ledger.DeleteLogSpec` | App.tsx:146-163 | for an existing id, the student the first such entry names moves by exactly minus its adjustment (no student changes if none has that id), and the log loses exactly the entries with that id, in order, which is one entry when log ids are unique |
| `Ledger.DeleteLogPreserves` | App.tsx:147-159 | a reversal keeps every invariant |
| `Ledger.BalanceWithoutEntry` | App.tsx:156-159 | dropping a uniquely identified entry takes exactly its adjustment off its student's sum |
| `Ledger.EmptyIsWellFormed` | App.tsx:20-21 | the empty initial registry and log satisfy every invariant |
| `Ledger.CheckInThenReverse` | App.tsx:97-159 | for a fresh log id, reversing a check-in just made gives back exactly the previous registry and log, also when the student id is unknown and the check-in changed nothing |
| `Ledger.DepositThenReverse` | App.tsx:117-159 | for a fresh log id, reversing a deposit just made restores the log and every balance, but the renewed student keeps the new payment date and cycle end; an unknown id leaves everything as it was |
| `Dashboard.Lower` | App.tsx:166 | lower-casing keeps the length and maps each character on its own |
| `Dashboard.Includes` | App.tsx:166 | the substring test of `includes`: a query that is a prefix of the name is found, and a found query is never longer than the name; `Dashboard.IncludesIff` characterises it exactly |
| `Dashboard.IncludesIff` | App.tsx:166 | the substring test holds exactly when the query occurs at some position of the name |
| `Dashboard.FilteredStudents` | App.tsx:165-167 | the result is an order-preserving subsequence of the registry holding exactly the students whose lower-cased name contains the lower-cased query, with all their occurrences |
| `Dashboard.EmptyQueryShowsAll` | App.tsx:165-167 | an empty query returns the whole registry |
| `Dashboard.IsOverdue` | App.tsx:174 | a student is overdue when no lessons are left (balance 0 or less) or the cycle end lies strictly before now; its three cases are `Dashboard.OverdueCases` |
| `Dashboard.ComputeStats` | App.tsx:173-180 | total is the registry size; 0 <= overdue <= total; active = total - overdue = the number of students that are not overdue; overdue is 0 exactly when nobody is overdue, and active is 0 exactly when everybody is |
| `Dashboard.OverdueCases` | App.tsx:174 | a balance of zero or less makes a student overdue whatever the cycle; an ended cycle makes a student overdue whatever the balance; a positive balance with a running cycle does not |
| `Roster.App.constructor` | App.tsx:20-21 | both collections start empty and well formed |
| `Roster.App.AddStudent` | App.tsx:47-73 | the new state is `Ledger.AddStudent` of the old one, and the invariant holds |
| `Roster.App.UpdateStudent` | App.tsx:75-79 | the new state is `Ledger.UpdateStudent` of the old one, and the invariant holds |
| `Roster.App.DeleteStudent` | App.tsx:86-93 | the new state is `Ledger.DeleteStudent` of the old one, and the invariant holds |
| `Roster.App.HandleCheckIn` | App.tsx:97-115 | the new state is `Ledger.HandleCheckIn` of the old one, and the invariant holds |
| `Roster.App.HandleDeposit` | App.tsx:117-143 | the new state is `Ledger.HandleDeposit` of the old one, and the invariant holds |
| `Roster.App.DeleteLog` | App.tsx:146-163 | the new state is `Ledger.DeleteLog` of the old one, and the invariant holds |
| `Scenario.AnaSilvaScenario` | App.tsx:47-163 | register with 8 → balance 8, cycle end 20; three check-ins → balance 5 and the log c3, c2, c1 (CHECK_IN, -1 each) above the opening DEPOSIT of +8; reversing c2 → balance 6 and the log c3, c1, d1 with the same actions; renewing with 12 → balance 18, payment date 4, cycle end 24, and a DEPOSIT of +12 at the head of four entries |
| `Scenario.SoleStudentRenameAndDelete` | App.tsx:75-88 | in a well-formed state with one student, a rename reaches every log entry and leaves the balance, the payment date and the cycle end alone, and deleting that student empties both collections |

## Left out

- Persistence through `localStorage` and `JSON.parse`/`JSON.stringify` (App.tsx:35-45) is I/O and is not modelled. The code has no fallback: a corrupt stored value makes `JSON.parse` throw. So the "start empty on a corrupt store" recovery and the save/load round trip are not stated. The model starts from the empty state.
- React mechanics are not modelled: state hooks, memoisation, the `setLogs` call nested inside a `setStudents` updater, and the confirmation modal. Each handler is one atomic transition on `(students, logs)`.
- `Dashboard.ComputeStats` takes `now` as a parameter. The source memoises the counters on the registry alone (App.tsx:173-180), so its `new Date()` is the time of the last registry change, not the time of display. The counters can therefore disagree with a per-render overdue badge until the registry changes; `now` stands for that memo time.
- `Ledger.DeleteLog` looks the entry up in the log current at confirmation time. The source captures `logs` when the reversal is requested (App.tsx:147). A log that changes between request and confirmation is not modelled.
- `Ledger.HandleCheckIn` and `Ledger.HandleDeposit` add one entry, named after the first matching student. The source adds one entry for each student whose id matches. The two agree whenever student ids are unique. Unique student ids are part of the proved invariant, and the source generates ids at random.
- Real date arithmetic is replaced by integer days: `setDate` month rollover, time zones, ISO strings and locale formatting are not modelled.
- Id generation (App.tsx:13-17) depends on randomness. Ids are parameters, and freshness is a precondition.
- `Dashboard.Lower` lower-cases only the letters A to Z. Unicode case mapping of `toLowerCase` is not modelled.
- The `amount` of a deposit is any integer. The source does not check it; only the user interface limits it to the package sizes.
- The handlers return nothing, as in the code (App.tsx:47, 97, 117). The model does not return the new student from registration.
- The UI state is not modelled: the history view that closes when its student is deleted (App.tsx:89-91), `viewingStudent` (App.tsx:169-171), tabs and forms.
- The presentational components are not modelled: `StudentCard`, `StudentHistoryModal`, `LogList`, `AddStudentForm` and `ConfirmModal`. This includes the form's non-empty-name guard.
