# Student record store, modelled in Dafny

This project models the record keeping of `StudentManagementSystem`, a console
program that keeps students (id, name, marks) in an insertion-ordered list. It
lets the user add, update and delete records through prompts that re-ask until
the typed line is acceptable. It also models the `Student` record the list holds.

The model is functional. The list is a `seq<Student>` passed in and returned
instead of a static field. Each store operation is a pure function returning a
`Result`: `Err` carries the reason the Java code prints a message and leaves the
list alone. The console is a sequence of lines read through a cursor. The
operations are built in layers:

- `JavaText` models the parts of the Java runtime the prompts depend on:
  - the 32-bit `int`
  - `String.trim()`
  - `Integer.parseInt` (radix 10)
  - the decimal text string concatenation writes for an `int`
- `StudentRecord` models `Student.java`: the constructor, getters, setters and
  `toString`.
- `RecordStore` models the list operations:
  - `findStudentById` and `isIdExists`
  - the list changes made by `addStudent`, `updateStudent` and `deleteStudent`
  - the invariant that ids stay unique
- `Validation` models what each prompt accepts from one line, and the retry loop
  that reads until a line is accepted.
- `Session` puts these together. It models the three menu actions as they read
  console lines, and the main loop.

Running out of lines in the middle of a prompt is the `OutOfInput` outcome. That
is where `Scanner.nextLine` would throw and end the program.

Three behaviours of the code shape the properties proved:

- **Marks on add can be -1.** The comment on `getValidMarks`
  (StudentManagementSystem.java:177) documents marks as 0-100. A blank line at
  the add path's marks prompt still stores -1, because `getValidMarks()` passes
  -1 as the value to keep. So the bound proved everywhere is "marks in 0..100, or
  -1".
- **Update and delete test for an empty list before they ask for an id.** So
  deleting the same id twice reports that there are no records when the first
  delete emptied the list, and that the id was not found otherwise.
- **Update changes only the first match; delete removes every match.** Update
  changes the record `findStudentById` returns, the first with the id. Delete
  uses `removeIf`, which removes every record with the id. While ids are unique
  that is at most one.

## Model

| member | source | states |
|---|---|---|
| `StudentRecord.New` | Student.java:27-40 | the getters of a new record return exactly the id, name and marks it was built from |
| `StudentRecord.Student.SetName` | Student.java:43 | the name becomes the given one; the id and marks stay as they were |
| `StudentRecord.Student.SetMarks` | Student.java:46 | the marks become the given ones; the id and name stay as they were |
| `StudentRecord.IdNeverChanges` | Student.java:13-46 | no series of setter calls, of any length, changes a record's id |
| `StudentRecord.DisplayRoundTrip` | Student.java:53-55 | the `toString` line `ID: <id>, Name: <name>, Marks: <marks>` determines the record: reading it back gives the same id, name and marks |
| `JavaText.TrimPieces` | StudentManagementSystem.java:166 | `trim()` returns a slice of the line with only characters up to U+0020 cut from either end, and the slice neither starts nor ends with one |
| `JavaText.TrimEmptyIffBlank` | StudentManagementSystem.java:104-107 | a trimmed line is empty exactly when every character of the line is U+0020 or below |
| `JavaText.TrimIdempotent` | StudentManagementSystem.java:104 | trimming an already trimmed name changes nothing |
| `JavaText.Decimal` | Student.java:54 | the decimal digits written for a non-negative number are non-empty, read back as that number, and start with `0` only for zero itself, written `0` |
| `JavaText.IntToString` | Student.java:54 | the text of an `int` is never empty; it starts with a minus sign exactly when the number is negative; every other character is a digit; the digits read back as the number's absolute value; and there are no leading zeros: zero is `0` and any other number's first digit is not `0` |
| `JavaText.ParseIntToString` | StudentManagementSystem.java:168 | `Integer.parseInt` reads back every `int` from its own decimal text |
| `JavaText.ParseIntOfSignedDigits` | StudentManagementSystem.java:168 | `Integer.parseInt` takes any run of ASCII digits, leading zeros included, after an optional `+` or `-`, and gives its value when that fits an `int` |
| `JavaText.ParseIntOnlySignedDigits` | StudentManagementSystem.java:168 | `Integer.parseInt` refuses every text that is not an optional `+` or `-` followed by at least one ASCII digit, such as `5x` or `-`; a text of that shape splits into the sign and digits `ParseIntOfSignedDigits` reads |
| `JavaText.ParseIntRejectsSpace` | StudentManagementSystem.java:86 | a line holding a space or control character anywhere is not a number, so an untrimmed menu line with padding is refused |
| `RecordStore.FindIndex` | StudentManagementSystem.java:204-209 | the scan stops at the first position whose id matches; no earlier record has the id; when it finds nothing, no record has the id |
| `RecordStore.Find` | StudentManagementSystem.java:204-209 | `findStudentById` returns a record exactly when the id is in the store's id set; that record has the id and no earlier record does |
| `RecordStore.IdExists` | StudentManagementSystem.java:199-201 | `isIdExists` holds exactly when the id is in the store's id set |
| `RecordStore.FindUnique` | StudentManagementSystem.java:204-209 | with unique ids, looking up a record's id returns that very record |
| `RecordStore.Add` | StudentManagementSystem.java:99-110 | refused with a duplicate-id error exactly when the id is present; otherwise appends the one record at the end, keeps every earlier record, adds its id to the id set, keeps ids unique, and keeps every name non-empty when the new one is |
| `RecordStore.Update` | StudentManagementSystem.java:132-146 | succeeds exactly when the list is non-empty and holds the id; an empty list is refused with no-records and an absent id with not-found; on success only the first record with the id changes, its name becomes the new one when non-empty and stays otherwise, its marks become the given ones, no id changes, and ids stay unique |
| `RecordStore.UpdateKeepsNames` | StudentManagementSystem.java:143-144 | an update never leaves a record without a name, because an empty new name keeps the old one |
| `RecordStore.SameIdsSameSet` | StudentManagementSystem.java:144-146 | changing names and marks in place, with every id where it was, leaves the set of ids as it was |
| `RecordStore.RemoveIdContents` | StudentManagementSystem.java:158 | after `removeIf`, the records left are exactly those whose id differs |
| `RecordStore.Delete` | StudentManagementSystem.java:153-159 | an empty list is refused with no-records; otherwise succeeds exactly when the id is present and is refused with not-found when it is absent; on success the result is what `removeIf` leaves (`RemoveId`), so every other record is kept in its order whatever the ids (`RemoveIdContents`, `RemoveIdDistributes`), the id leaves the id set, and with unique ids exactly one record goes and ids stay unique |
| `RecordStore.RemoveIdKeepsUnique` | StudentManagementSystem.java:158 | removing records never creates a clash of ids |
| `RecordStore.UniqueMatchesAtMostOne` | StudentManagementSystem.java:158 | with unique ids at most one record matches, so delete removes at most one |
| `RecordStore.RemoveIdDistributes` | StudentManagementSystem.java:158 | removal keeps the order of the records it leaves: removing from a concatenation is removing from each part |
| `RecordStore.DeleteUniqueCutsOne` | StudentManagementSystem.java:158-159 | with unique ids, delete cuts out exactly the record at the id's position and leaves the records before and after it in order |
| `RecordStore.DeleteTwice` | StudentManagementSystem.java:153-159 | deleting the same id a second time is refused |
| `RecordStore.AliceScenario` | StudentManagementSystem.java:99-159 | add, duplicate add, marks-only update, delete and a repeated delete give the expected results, the last one the empty-list refusal |
| `Validation.AcceptChoice` | StudentManagementSystem.java:83-88 | a menu line is accepted exactly when its untrimmed text parses to a number in 1..5, and then that number is the choice |
| `Validation.AcceptId` | StudentManagementSystem.java:163-170 | an id line is accepted exactly when its trimmed text parses to a number above zero, and then that number is the id |
| `Validation.AcceptMarks` | StudentManagementSystem.java:178-185 | a blank line yields the current value; any other line is accepted exactly when its trimmed text parses to a number in 0..100, and then that number is the marks |
| `Validation.AcceptedNameIsTrimmed` | StudentManagementSystem.java:104-108 | a name line is refused exactly when blank; an accepted name is the line trimmed, so it is non-empty and has nothing left to trim |
| `Validation.FirstIndex` | StudentManagementSystem.java:164-174 | the position a prompt stops at: the line there is acceptable and every line between the cursor and it was refused, or no line from the cursor on is acceptable and the position is the end of input |
| `Validation.FirstAccepted` | StudentManagementSystem.java:84-92 | every prompt loop returns the first acceptable line from the cursor on, at the position `FirstIndex` names, and reads exactly up to it; when no line is acceptable it returns nothing and all lines are used up |
| `Validation.ChoiceOfNumber` | StudentManagementSystem.java:86-87 | typing a number at the menu selects it exactly when it is in 1..5 |
| `Validation.ChoiceNotTrimmed` | StudentManagementSystem.java:86 | a menu choice typed after a space is refused, because the menu does not trim |
| `Validation.IdOfNumber` | StudentManagementSystem.java:166-169 | a number typed at the id prompt, with any blanks before and any blanks after it, is accepted exactly when it is above zero |
| `Validation.MarksOfNumber` | StudentManagementSystem.java:181-185 | a number typed at a marks prompt is accepted exactly when it is in 0..100 |
| `Validation.ChoiceOfDigits` | StudentManagementSystem.java:86-87 | the menu takes any run of digits after an optional `+`, such as `+3` or `03`, exactly when its value is in 1..5 |
| `Validation.IdOfDigits` | StudentManagementSystem.java:166-169 | the id prompt takes any run of digits after an optional `+`, with any blanks around it, such as ` +007`, exactly when its value is an `int` above zero |
| `Validation.MarksOfDigits` | StudentManagementSystem.java:181-185 | a marks prompt takes any run of digits after an optional `+`, with any blanks around it, such as `050`, exactly when its value is in 0..100 |
| `Validation.TrimOfPadded` | StudentManagementSystem.java:166 | trimming a word with any blanks before it and any blanks after it gives the word back |
| `Session.AddStudent` | StudentManagementSystem.java:96-112 | the id prompt stops at the first acceptable id line; that id is refused as a duplicate right after it exactly when the store holds it, with the store unchanged; otherwise the name prompt stops at the first non-blank line after it, and the add is done exactly when a later line is acceptable marks, the first such line ending it; the record added is the accepted id with that name and those marks; running out of lines leaves the store unchanged; ids and the store invariants are kept |
| `Session.AddNew` | StudentManagementSystem.java:103-111 | with a free id, the name prompt stops at the first non-blank line and the marks prompt at the first acceptable line after it; the store gains the record built from those lines exactly when both are found, and is unchanged when the lines run out |
| `Session.AddedRecordIsFresh` | StudentManagementSystem.java:103-111 | the record an add appends goes at the end, after every earlier record, with an id above zero that was not taken, the name line trimmed as its name, which is not empty, and marks in 0..100 or -1, where -1 happens exactly when the marks line was blank and any other marks are the number on the marks line |
| `Session.UpdateStudent` | StudentManagementSystem.java:130-141 | refused with no-records, before reading any line, exactly when the list is empty; otherwise the id prompt stops at the first acceptable id line, running out there leaves the store unchanged, and the id is refused right after its line exactly when the store lacks it; a found id gives `EditResult` of the lines after it; ids stay in place and the store invariants are kept |
| `Session.UpdateId` | StudentManagementSystem.java:137-141 | an id the store lacks is refused before any further line is read; a held id gives `EditResult` of the following lines |
| `Session.EditFound` | StudentManagementSystem.java:142-146 | reading the name line and then marks lines until one is accepted gives exactly `EditResult`: the store, the next line and the outcome |
| `Session.EditResultMeans` | StudentManagementSystem.java:142-146 | after a found id, the prompts finish exactly when there is a name line and a later acceptable marks line; the first such line ends them, and the store is `Update` with the trimmed name line and those marks; when the lines run out after the name line, the new name is kept with the old marks; when they run out before it, nothing changes |
| `Session.EditResultIsUpdate` | StudentManagementSystem.java:144-146 | calling `setName` (for a non-empty name) and then `setMarks` on the found record is the store's `Update` with the name line and the marks the prompt returned |
| `Session.EditResultKeeps` | StudentManagementSystem.java:142-146 | editing a found record keeps every record in place with its id, keeps the id set, and keeps unique ids, the marks bound and non-empty names |
| `Session.UpdateKeepsMarksBound` | StudentManagementSystem.java:145-146 | storing marks in 0..100 or the record's own marks keeps every record's marks in 0..100 or -1 |
| `Session.UpdateFromLines` | StudentManagementSystem.java:142-146 | a blank name line keeps the name and a blank marks line keeps the marks; a non-blank answer replaces that field with what was typed |
| `Session.DeleteStudent` | StudentManagementSystem.java:151-160 | refused with no-records, before reading any line, exactly when the list is empty; otherwise the id prompt stops at the first acceptable id line; the lines run out exactly when there is none, leaving the store unchanged; otherwise the result is exactly `Delete` of that id, read right after its line, and a refusal there is always not-found; the id set only shrinks; ids and the store invariants are kept |
| `Session.Run` | StudentManagementSystem.java:15-42 | for any sequence of console lines, a store that starts with unique ids keeps them, every id that appears is above zero, every record's marks stay in 0..100 or at -1, and every record keeps a non-empty name; the contract states only these invariants, not which action each menu choice runs |

## Left out

- `loadStudents` and `saveStudents` are left out. They use Java object
  serialization and file I/O. The main loop's save after each change does not
  alter the list, so it is dropped.
- Printing is left out: the menu, `viewStudents` and every message. The outcome
  of each action stands for the message printed.
- `viewStudents` and choice 2 only print, so the main loop treats choice 2 as a
  step that leaves the store alone.
- The main loop's `default` branch is left out. It is unreachable, because
  `getValidChoice` only returns 1..5.
- `Scanner` is modelled as a finite sequence of lines. `NoSuchElementException`
  at end of input is the `OutOfInput` outcome, and the model does not say what
  the uncaught exception prints.
- Statics are not modelled. The static list and scanner become explicit
  parameters and results.
- JavaText.ParseInt: Java's `Character.digit` also accepts non-ASCII Unicode
  digits. The model accepts only ASCII `0`-`9`, with an optional `+` or `-` sign,
  and rejects values outside the `int` range. Both halves are proved:
  `ParseIntOfSignedDigits` for what it accepts, `ParseIntOnlySignedDigits` for
  what it refuses.
- Session.Run: the contract states only the store invariants the loop keeps. It
  does not state which action each menu choice runs; that dispatch is read from
  the body, and each action has its own contract.
- JavaText.Trim has no contract of its own. What it produces is stated by the
  lemmas `TrimPieces`, `TrimEmptyIffBlank` and `TrimIdempotent`.
- RecordStore.RemoveId only states the length of its result. Its contents are
  stated by `RemoveIdContents`, and its order by `RemoveIdDistributes`.
- `Session.UpdateStudent` and `Session.DeleteStudent` do not restate every store
  fact. Delete's result is given as `Delete` of the accepted id. Update's result
  is given as `EditResult`, the edit the prompts make in place. `EditResultMeans`
  and `EditResultIsUpdate` tie that edit to `Update`, and those carry the facts.
- `Session.AddStudent` gives the added record as `Add` of the accepted lines
  (`AddedFrom`). What that record is made of is stated by `AddedRecordIsFresh`.
