# 4Ps Educational Monitoring System — a Dafny model of its core

The 4Ps system is a console application for a social-assistance programme. It keeps four SQLite
tables: users, programs, participation (keyed by user and program) and attendance. A user
registers and logs in. A logged-in user can add programs, record participation and attendance,
list a table, update a program or a participation row, and delete a program, a participation row
or an attendance row. Each delete needs an existence check and a `y` confirmation.

This project models the four classes that make up the system:

- **`config`**, the database gateway (`gateway.dfy`, module `Gateway`, on top of `schema.dfy`,
  module `Schema`).
  - It has the single connection and positional parameter binding.
  - `addRecord`/`updateRecord`/`deleteRecord` classify an engine failure by the text of its
    message, and warn about zero rows only for an UPDATE or DELETE.
  - `getRecords` returns `null` on failure.
  - `getNextId` computes `MAX(id) + 1`, falling back to 1.
  - The tables are a value of four maps. Every INSERT/UPDATE/DELETE the application prepares is
    a `Statement` whose effect is `Schema.Apply`. Every SELECT is a `Query` whose rows are
    `Schema.Select`. The `Database` class holds the connection state and the tables, and updates
    them in place.
- **`AuthManager`** (`auth.dfy`, module `Auth`).
  - Registration: generate an id, read five trimmed lines, check the email, then insert.
  - Login: look up by email and hashed password, and count the failed attempts.
  - `hashPassword`: the `%02x` hex encoding of a digest, written as the loop the source runs.
- **`RecordManager`** (`records.dfy`, module `Records`).
  - Every menu flow, with the input helpers `getIntInput`/`getDoubleInput` and their `-1`
    sentinels.
  - The duplicate check before a participation insert, and the existence checks before updates
    and deletes.
  - The deletion confirmation.
- **`main`** (`session.dfy`, module `App`). The session fields, the menus shown before and after
  login, the logout, the attempt counter that ends the program at three, and the main loop.

The standard-library pieces the core relies on are in `text.dfy`, module `Text`:

- `String.trim`;
- `Integer.parseInt` and `Integer.toString` on the 32-bit range;
- `toLowerCase().startsWith`, `contains` and `equalsIgnoreCase`.

The shared `java.util.Scanner` is in `console.dfy`, module `Console`. The lines the user will type
are a fixed function `input` from line numbers to strings. The scanner counts how many lines it
has consumed. So every flow's contract names exactly which input lines it read, and how many.

What the engine answers, beyond the tables, is a parameter (`Gateway.Replies`):

- whether the id query works;
- whether a pre-check SELECT fails while being prepared or executed;
- the message of a write failure the model cannot predict, such as a locked file.

A failure the model does predict comes from `Apply`: a duplicate key or email gives the
engine's `UNIQUE constraint failed` message.

Every id and key the flows bind is a Java `int`: it comes from `getIntInput` or `getNextId`.
`Gateway.Database.Valid` therefore keeps every key of every table in the 32-bit range, next to
the uniqueness of emails, and every write requires a statement whose keys are `int`s.

Three choices of the model follow from the code itself:

- **Sentinels reach the database on update.** `recordParticipation` returns as soon as an
  answer reads as the `-1` sentinel (`src/main/RecordManager.java:63-73`). The participation
  update reads its new meetings count and amount at lines 196-197 and writes them at lines
  199-200 without that check, so an unparsable answer is stored as `-1`
  (`Records.UnparsableMeetingsStoredAsSentinel`). The program and participation keys of an
  update or delete are not checked for the sentinel either; they are only looked up.
- **A participation pair is a key.** The participation table is keyed by the (user, program)
  pair, so a second insert of a pair is rejected with a uniqueness violation. The code expects
  exactly this: `addRecord`'s message for `UNIQUE constraint failed` names "an Email or combined
  primary key" (`src/config/config.java:52-53`), and `recordParticipation` checks the pair first
  (`src/main/RecordManager.java:75-80`).
- **Writes return what `addRecord` prints.** `addRecord` is `void` and only prints
  (`src/config/config.java:37-60`): nothing on success, a warning for zero rows, or one of four
  failure messages. The model returns that choice as a `WriteOutcome`: `Done` with the row
  count, `ZeroRowsWarned`, or `Failed` with the engine's message.

## Model

| member | source | states |
|---|---|---|
| Text.TrimShape | src/main/RecordManager.java:20 | `trim` returns the infix of the line between its leading and trailing blanks; everything outside it is at or below U+0020, and the result neither starts nor ends with such a character |
| Text.TrimIdempotent | src/main/RecordManager.java:20 | trimming an already trimmed answer changes nothing |
| Text.ParseInt | src/main/RecordManager.java:21-26 | `Integer.parseInt` accepts only a non-empty line of an optional `-` or `+` followed by ASCII digits, with a value in the 32-bit range; whatever it accepts has no blank at either end |
| Text.ParseShow | src/main/RecordManager.java:22 | every 32-bit integer printed by `Integer.toString` parses back to itself |
| Text.ParseAcceptsOnlyTrimmed | src/main/main.java:119-125 | a line the menu's untrimmed `parseInt` accepts is unchanged by `trim` |
| Text.ConfirmationLines | src/main/RecordManager.java:233 | `equalsIgnoreCase("y")` holds exactly for the lines `y` and `Y` |
| Schema.Apply | src/config/config.java:39-41 | the engine rejects a statement exactly when it inserts onto a present key or a registered email; a statement that takes effect affects one row exactly when it inserts or its key is present, and never more than one |
| Schema.ApplyFrame | src/config/config.java:39-41 | a statement that takes effect writes the row its key addresses as the SQL text says (inserted, overwritten or removed) and leaves every other row of every table unchanged |
| Schema.InsertAddsOneRow | src/config/config.java:41-43 | an insert that takes effect affects one row and grows its table by one |
| Schema.UpdateKeepsRowCount | src/main/RecordManager.java:178-179 | an update affects at most one row and never changes the size of its table |
| Schema.DeleteRemovesAffectedRows | src/main/RecordManager.java:238-239 | a delete affects at most one row, and the table shrinks by exactly the rows reported |
| Schema.ApplyKeepsEmailsUnique | src/main/AuthManager.java:68-71 | no statement can leave two users with one email |
| Schema.WriteNeedsRow | src/config/config.java:41-47 | an insert onto a present key is rejected; an update or delete of an absent key changes nothing and affects 0 rows; of a present key, exactly one row |
| Schema.AttendanceIgnoresForeignKeys | src/main/RecordManager.java:104-105 | an attendance row is inserted whatever user and program ids it names |
| Schema.LookupFindsKey | src/main/RecordManager.java:163-169 | each pre-check query returns a row exactly when its key is present, and the email check exactly when the email is registered |
| Schema.Select | src/config/config.java:77-86 | each lookup by a key (the participation check, a program, a participation row, an attendance row) returns at most one row |
| Schema.SelectColumns | src/main/RecordManager.java:125-137 | every row a query returns has as many columns as its `SELECT` names: 6 for `SELECT * FROM user`, 2 for the login lookup, 5 for the user listing, and so on |
| Schema.ApplyKeepsKeysInt32 | src/config/config.java:39-41 | a statement whose keys are `int` values leaves every key of every table in the `int` range |
| Schema.ListingOmitsPasswords | src/main/RecordManager.java:127 | the user listing is the same whatever the stored password hashes are |
| Gateway.Connect | src/config/config.java:17-30 | only a missing or closed connection is opened, and it is open afterwards exactly when the database was reachable; a failure leaves it as it was |
| Gateway.ConnectIdempotent | src/config/config.java:19-23 | connecting again after a successful connect changes nothing |
| Gateway.Close | src/config/config.java:162-171 | after `closeDB` the connection is not open; a connection that was not open is left as it was |
| Gateway.CloseIdempotent | src/config/config.java:164-166 | closing twice is closing once |
| Gateway.Classify | src/config/config.java:50-58 | the printed category is busy, duplicate, foreign key or generic, each exactly when the message contains its marker and no earlier marker |
| Gateway.BusyOutranksConstraints | src/config/config.java:50-51 | a message naming `SQLITE_BUSY` is a busy failure whatever constraint it also names |
| Gateway.UniqueOutranksForeignKey | src/config/config.java:52-55 | a uniqueness message without the busy marker is a duplicate, never a foreign-key failure |
| Gateway.RejectionIsUniqueViolation | src/config/config.java:50-53 | the message of the engine's rejection of a duplicate key or email is classified as a duplicate |
| Gateway.RejectionReportedAsDuplicate | src/config/config.java:37-60 | a write the engine rejects, with no other fault, is reported as a failure of the duplicate kind |
| Gateway.SqlStartsWithKeyword | src/config/config.java:44 | every statement's SQL text, lower-cased, starts with `insert`, `update` or `delete` according to its kind |
| Gateway.WarnsZeroRowsExactly | src/config/config.java:42-47 | the zero-rows warning is given exactly for an update or delete that affected no row |
| Gateway.InsertsNeverWarn | src/config/config.java:42-47 | an insert never draws the zero-rows warning |
| Gateway.Report | src/config/config.java:41-47 | the zero-rows warning is given exactly when no row was affected and the SQL starts, ignoring case, with `update` or `delete`; otherwise success with the row count |
| Gateway.Execute | src/config/config.java:37-60 | a write fails exactly when the engine reports a fault or rejects it, and then the tables are unchanged; otherwise the tables are the statement's effect and the report follows its row count |
| Gateway.ExecuteFrame | src/config/config.java:37-60 | a write, failed or not, changes at most the row it addresses |
| Gateway.InsertOnFreeKey | src/config/config.java:39-43 | an insert onto a free key (and a free email) with no engine fault reports one row, stores that row and grows its table by one |
| Gateway.ExecuteKeepsKeysInt32 | src/config/config.java:37-60 | no write of a statement with `int` keys puts a key outside the `int` range |
| Gateway.ExecuteKeepsEmailsUnique | src/config/config.java:37-60 | no write, failed or not, makes two users share an email |
| Gateway.UpdateDeleteOutcome | src/config/config.java:41-47 | an update or delete without a fault either changes its one row or draws the zero-rows warning, never a failure |
| Gateway.ZeroRowsWarnedForUpdateDelete | src/config/config.java:44-46 | every update or delete that affects no row is warned about |
| Gateway.NextId | src/config/config.java:97-109 | the next id of a column of `int` ids is itself an `int` |
| Gateway.MaxOf | src/config/config.java:98 | `MAX(id)` over a non-empty column is an id of the column and no id exceeds it |
| Gateway.NextIdIsFresh | src/config/config.java:97-104 | while the ids are below the `int` maximum, a generated id is above every existing id (so not one of them), and one more than an existing id |
| Gateway.NextIdWrapsAtMaximum | src/config/config.java:103 | when the largest id is the `int` maximum, `getInt + 1` wraps the next id to the `int` minimum |
| Gateway.NextIdSkipsGaps | src/config/config.java:97-104 | deleting an id below the largest one changes nothing about the next id, so a gap below the largest id is never reused |
| Gateway.NextIdReusesFreedMaximum | src/config/config.java:97-104 | deleting the largest id of a column with another id makes the next id at most that freed id, and exactly it when the id just below was present |
| Gateway.Positional | src/config/config.java:154-160 | placeholders 1 to n are bound, the i-th to the (i-1)-th argument, and no other |
| Gateway.PreparedStatement.SetParameters | src/config/config.java:154-160 | the loop binds every argument to its placeholder in order and keeps earlier bindings; a null argument array binds nothing |
| Gateway.Database.constructor | src/config/config.java:15 | the connection starts unassigned, over the stored tables |
| Gateway.Database.ConnectDB | src/config/config.java:17-30 | the connection becomes `Connect` of the old one |
| Gateway.Database.CloseDB | src/config/config.java:162-171 | the connection becomes `Close` of the old one |
| Gateway.Database.AddRecord | src/config/config.java:37-60 | the new tables and the report are exactly `Execute` of the old tables; emails stay unique and keys stay in the `int` range |
| Gateway.Database.UpdateRecord | src/config/config.java:62-67 | `addRecord`, then success is reported exactly when the SQL does not start with `insert` |
| Gateway.Database.DeleteRecord | src/config/config.java:69-74 | the same as `updateRecord` |
| Gateway.NonInsertsReportSuccess | src/config/config.java:64-66 | every update and delete the flows send is reported as successful, whatever it affected |
| Gateway.Database.GetNextId | src/config/config.java:97-109 | the id returned is `NextId` of the table's id column: 1 when the query fails or the table is empty, else the 32-bit successor of the largest id; for a valid database it is an `int` |
| Gateway.Database.GetRecords | src/config/config.java:77-95 | a failed prepare returns null; a failed execute closes the statement and returns no rows; otherwise the open statement carries the query's SQL and bindings and the rows are `Select` of the tables |
| Gateway.Database.Found | src/main/RecordManager.java:77 | `rs != null && rs.next()` holds exactly when the query ran and returned a row |
| Console.Scanner.NextLine | src/main/RecordManager.java:20 | returns the next input line and consumes exactly one |
| Console.Scanner.NextTrimmed | src/main/AuthManager.java:47 | `nextLine().trim()`: returns the next input line trimmed and consumes exactly one |
| Auth.HexByte | src/main/AuthManager.java:109 | `%02x` gives two lower-case hex digits |
| Auth.HexEncode | src/main/AuthManager.java:107-111 | the encoding has two characters per digest byte |
| Auth.HexEncodeDigits | src/main/AuthManager.java:108-110 | the encoding uses only lower-case hex digits |
| Auth.HexEncodeAt | src/main/AuthManager.java:108-110 | characters 2i and 2i+1 are the digits of byte i |
| Auth.HexRoundTrip | src/main/AuthManager.java:103-111 | decoding the hex string gives the digest back |
| Auth.HexEncodeInjective | src/main/AuthManager.java:103-111 | different digests never give the same stored hash |
| Auth.AuthManager.HashShape | src/main/AuthManager.java:103-111 | a stored password hash is 64 lower-case hex digits, and equal passwords hash equally |
| Auth.AuthManager.HashPassword | src/main/AuthManager.java:103-111 | the byte loop builds exactly the hex encoding of the password's digest |
| Auth.Login | src/main/AuthManager.java:84-99 | success exactly when the lookup runs and some user has that email and that hash, returning that user's id and name with the counter at 0; otherwise `(false, -1, "", attempts + 1)` |
| Auth.LoginFindsTheEmailOwner | src/main/AuthManager.java:86-93 | a successful login names the one user who owns the email |
| Auth.LoginRow | src/main/AuthManager.java:88-91 | any row of the login lookup is the id and name the login returns |
| Auth.LoginNoRow | src/main/AuthManager.java:88-98 | the lookup returns no row exactly when no user matches email and hash |
| Auth.AuthManager.constructor | src/main/AuthManager.java:16-19 | the manager shares the given database and scanner |
| Auth.AuthManager.ReadUser | src/main/AuthManager.java:46-57 | five lines are consumed, each trimmed, and the fifth is hashed as the password |
| Auth.AuthManager.HandleRegistration | src/main/AuthManager.java:41-76 | five lines are read; the flow stops with nothing written exactly when the email check runs and finds the email; otherwise the user is inserted under the generated id with the write's outcome, and emails stay unique |
| Auth.AuthManager.HandleLogin | src/main/AuthManager.java:78-101 | two lines are consumed, and the result is `Login` on the trimmed email and the hash of the trimmed password |
| Records.IntInput | src/main/RecordManager.java:18-27 | the answer is an `int`; anything but -1 is what `parseInt` reads from the trimmed line, and a line it cannot read gives -1 |
| Records.IntInputShow | src/main/RecordManager.java:18-27 | every 32-bit integer typed with any blanks around it is read back as itself |
| Records.SentinelIsAmbiguous | src/main/RecordManager.java:21-26 | an unparsable answer reads as -1, the same as a typed `-1` |
| Records.UnparsableMeetingsStoredAsSentinel | src/main/RecordManager.java:196-200 | an unparsable new meetings count overwrites the stored count with -1 |
| Records.ViewQuery | src/main/RecordManager.java:125-137 | each of the four view choices lists a whole table |
| Records.RecordManager.constructor | src/main/RecordManager.java:13-16 | the manager shares the given database and scanner |
| Records.RecordManager.GetIntInput | src/main/RecordManager.java:18-27 | consumes one line and returns its trimmed integer value or -1 |
| Records.RecordManager.AmountInput | src/main/RecordManager.java:29-38 | an amount other than the sentinel is what `parseDouble` reads from the trimmed line, and a line it cannot read gives the -1.0 sentinel |
| Records.RecordManager.GetDoubleInput | src/main/RecordManager.java:29-38 | consumes one line and returns its trimmed amount or the -1.0 sentinel |
| Records.RecordManager.GetField | src/main/RecordManager.java:49-51 | consumes one line and returns it trimmed |
| Records.RecordManager.AddProgram | src/main/RecordManager.java:43-56 | consumes two lines and inserts the program with the generated id, the trimmed name and the description, with no pre-check |
| Records.RecordManager.RecordParticipation | src/main/RecordManager.java:61-85 | reads up to the first sentinel; the flow is invalid exactly when an answer is a sentinel, already recorded exactly when the check runs and finds the pair; only otherwise is the row inserted, and nothing changes in the other cases |
| Records.RecordManager.RecordAttendance | src/main/RecordManager.java:90-107 | takes the id first, stops on a sentinel user or program id, and otherwise inserts the attendance row with the trimmed date |
| Records.RecordManager.ViewRecords | src/main/RecordManager.java:112-147 | writes nothing; -1 is invalid input, choices 1-4 list their table (no rows when the query fails), any other choice is an invalid option |
| Records.RecordManager.UpdateProgramRow | src/main/RecordManager.java:161-181 | not found (one line read, nothing written) exactly when the check does not run and find the id; otherwise the program is updated with the two trimmed lines |
| Records.RecordManager.UpdateParticipationRow | src/main/RecordManager.java:183-202 | not found exactly when the check does not run and find the pair; otherwise the meetings and amount read, sentinels included, are written |
| Records.RecordManager.UpdateRecord | src/main/RecordManager.java:152-208 | -1 is invalid input and any choice but 1 or 2 an invalid option, both writing nothing; 1 and 2 run the program and participation updates, report not found exactly when the check does not run and find the key, and consume the choice, the key and (when found) the two new values |
| Records.RecordManager.DeleteIfConfirmed | src/main/RecordManager.java:224-241 | not found (no line read) exactly when the check does not run and find the row; otherwise one line is read, and the row is deleted exactly when that line equals `y` ignoring case |
| Records.RecordManager.DeleteRecord | src/main/RecordManager.java:213-288 | -1 is invalid input, a choice outside 1-3 an invalid option; choices 1-3 end not found, cancelled or written, and write exactly when the check runs and finds the row and the confirmation line equals `y` ignoring case; nothing else changes the tables |
| App.MenuChoice | src/main/main.java:119-126 | the choice is an `int`; anything but -1 is what `parseInt` reads from the untrimmed line, and a line it cannot read gives -1 |
| App.MenuChoiceStricterThanIntInput | src/main/main.java:119-126 | a choice the menu accepts reads the same through the trimming prompt helper; a choice typed with a blank at either end is rejected as -1 |
| App.Session.constructor | src/main/main.java:10-19 | the session starts logged out, with no user and no failed attempts, sharing one database and one scanner |
| App.Session.LogIn | src/main/main.java:63-75 | a successful login stores the user and clears the counter; a failed one stores the incremented counter and stops the program exactly when it reaches three |
| App.Session.PreLoginMenu | src/main/main.java:47-84 | 1 registers (six lines), 2 logs in (three lines) with `Login`'s result, 3 stops the program, anything else changes nothing; the session stays consistent |
| App.Session.MainMenu | src/main/main.java:86-116 | options 1 to 6 keep the user logged in, 7 logs out without resetting the counter, any other choice changes nothing |
| App.Session.Run | src/main/main.java:27-40 | the loop keeps the session consistent (logged in means a clean counter, a running program fewer than three failures) and ends logged out once the program stops |

## Left out

- Console output (prompts, success and error messages) and `displayResultSet`'s formatting are
  not modelled. A flow's result is returned as an `Outcome`, and a listing as the set of rows.
- SHA-256 is not modelled. The digest is a parameter of `AuthManager` (a 32-byte function of the
  password), and only the hex encoding is. `Auth.HexDecode` is a reference inverse written for
  the round trip; the system has none.
- `Double.parseDouble` is a parameter of `RecordManager`. Amounts are kept only as the `-1.0`
  sentinel versus any other 64-bit pattern (`Schema.DoubleBits` leaves out the pattern of `-1.0`, so
  every amount has one form); no floating-point arithmetic is involved.
- Running out of input (`NoSuchElementException` from `nextLine`) is not modelled: the input is
  an unbounded sequence of lines.
- Operations on a connection that never opened or was closed (a `NullPointerException` or
  `SQLException` in the source) are not modelled. Every database operation requires an open
  connection. `getConnection`, which only throws, is not part of this model.
- `SQLException`s thrown from `rs.next()` and the statements left open by the flows are not
  modelled, nor are the locks they hold. A busy engine is only a possible failure message of a
  write (`Replies.writeFault`). So the catch clauses of `main`'s loop (lines 34-38) never fire in
  the model.
- The SQL engine is not part of this model. `Schema.Apply` assumes these keys:
  - `user_id`, `program_id`, the participation pair and `attendance_id` are the keys;
  - `email` is unique;
  - foreign keys are not enforced (SQLite's default).

  The text of a uniqueness violation is assumed to be SQLite's own
  `UNIQUE constraint failed: <table>.<column>`, with no prefix from the driver. A driver prefix
  (which could hold a result-code name) is not modelled; `Gateway.UniqueOutranksForeignKey` states
  the duplicate verdict for any message around the marker, provided it does not name
  `SQLITE_BUSY`.
- The id query's SQL text, built by string concatenation in `getNextId`, is not part of the
  model's SQL constants; `Gateway.Database.GetNextId` models only its result.
- `trim` is exact for `char` (everything at or below U+0020). Case folding covers ASCII letters
  only, which is all `y`/`insert`/`update`/`delete` need.
- `System.exit` is modelled as `running := false`, which ends `App.Session.Run`'s loop. The loop
  is bounded by the sequence of engine answers it is given.
- The `loginAttempts` counter is unbounded `int`. It never exceeds 3, so 32-bit overflow cannot
  arise.
- Auth.Login: requires the email column to be unique, which `Gateway.Database.Valid` keeps. With
  duplicate emails, which row the lookup returns first would be unspecified.
- Text.ParseInt: accepts ASCII digits only. Java's `Character.digit`, which `parseInt` uses,
  also accepts the other Unicode decimal digits (such as U+0663, ARABIC-INDIC DIGIT THREE); a
  line typed with them is read as a number by Java and as the sentinel by the model.
- Gateway.Database.GetRecords: returns the rows as a set; the engine's row order (no `ORDER BY`
  is used) is not modelled.
- Gateway.NextIdIsFresh: holds only while every id is below the `int` maximum; beyond it,
  `Gateway.NextIdWrapsAtMaximum` states what happens instead.
- App.Session.PreLoginMenu: for choice 1 it states only the number of lines read and that the
  session is unchanged. The effect of the registration on the tables is stated by
  `Auth.AuthManager.HandleRegistration`.
- App.Session.MainMenu: for options 1 to 6 it states only that the session is unchanged. Their
  effect on the tables is stated by the `Records.RecordManager` flows.
- App.Session.Run: states the invariant the loop keeps, not the effect of each round.
