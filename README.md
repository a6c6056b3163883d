# ATM machine: account store and session, modelled in Dafny

This models a single-user terminal ATM program. The program has two parts:

- **Record store.** It loads a table of at most 10 accounts from a text file of `pin,name,balance` lines and writes the whole table back after every change.
- **Session controller.** It logs one user in by PIN, then serves a menu (Withdraw, Deposit, Check Balance, Exit) against that one active account.

Everything is in `CCP.c`. The model has four modules, one file each:

- `accounts.dfy` (`Accounts`): the `Account` record, the capacity `MaxAccounts` = 10, and the longest name the loader accepts, 49 bytes (one character of a line stands for one byte of the file).
- `record_format.dfy` (`RecordFormat`): the text of one line. `ParseLine` reads a line the way `%d,%49[^,],%f` does and `FormatLine` writes it the way `%d,%s,%.2f` does. Balances are integer cents, so the two-decimal rendering is exact. Lemmas prove that a written line reads back as the same record.
- `record_store.dfy` (`RecordStore`):
  - `LoadFile` specifies loading.
  - `FormatAll` and `SaveTo` specify saving.
  - The class `AccountList` holds an `array` of 10 slots plus `count`. Its `Load` and `Save` methods loop over the table and are proved against those functions.
  - `SaveLoadRoundTrip` proves that loading a saved table gives back the same records.
- `session.dfy` (`Session`):
  - `FindPin` is the first-match PIN search.
  - `Serve` is one pass of the menu loop and changes the active balance in place.
  - `Menu` is the menu loop.
  - `AtmMachine` is the whole `atm_machine` run.
  - Each method is proved against a pure function: `FirstMatch`, `Transact`/`Step`, `Replay` and `SessionRun`.
  - Lemmas prove that a session changes only the logged-in account's balance. With a writable file, that file always reloads to exactly the table in memory.

Environment inputs are parameters:

- The backing file is a `Disk`: its lines, each a sequence of characters with one character per byte of the file, `None` when it cannot be opened for reading, and a flag that says whether it can be opened for writing.
- The console supplies an already-parsed PIN (`Option<int>`, `None` for non-numeric input) and a sequence of `Request`s. A request is non-numeric menu input, or a menu choice with its amount in cents.

After a malformed line, `load_all_account_data` leaves the records read so far in the table and returns 0. Only its caller stops; nothing discards those records. `AccountList.Load` states this.

## Model

| member | source | states |
|---|---|---|
| RecordFormat.NatDigitsRoundTrip | CCP.c:67-70 | The decimal digits written for a non-negative number read back as that number. |
| RecordFormat.IntRoundTrip | CCP.c:33-39 | A pin written with `%d` (sign and digits) reads back as the same integer. |
| RecordFormat.CentsRoundTrip | CCP.c:67-70 | A balance written with two decimals reads back, through the balance field grammar, as the same number of cents, negative amounts included. |
| RecordFormat.ParseLine | CCP.c:33-39 | Every accepted line has a name of 1 to 49 characters with no comma. It also has no line break, because a line of the file holds none. `%49[^,]` itself stops only at a comma or after 49 characters. |
| RecordFormat.FormatLine | CCP.c:67-70 | A record whose name is savable is written as exactly one line of the file. `LineRoundTrip` shows the line reads back as the same record, and `CentsTextTwoDecimals` shows the balance is written with exactly two decimals. |
| RecordFormat.CentsTextTwoDecimals | CCP.c:67-70 | The balance text ends in a point followed by exactly two digits, and those digits are the cents of the balance's magnitude, as `%.2f` writes them. |
| RecordFormat.LineRoundTrip | CCP.c:67-70 | A record whose name is 1 to 49 characters with no comma or newline, written as `pin,name,balance`, reads back as the same pin, name and cents. |
| RecordStore.LeadingRecordsParsed | CCP.c:32-50 | The records read are exactly the longest run of well-formed lines at the head of the file, each parsed from its own line, and the line right after that run, if any, is malformed. |
| RecordStore.LoadFile | CCP.c:22-55 | A missing file, and only a missing file, is reported as not found. A successful load never holds more than 10 records. |
| RecordStore.LoadedOutcome | CCP.c:32-54 | A successful load holds one record per line, in file order, each parsed from its line. It stops only at 10 records or at the end of the file. |
| RecordStore.CorruptOutcome | CCP.c:32-49 | A load that fails at line `k + 1` failed at a line within the first 10 that is malformed, and every line before it is well formed. |
| RecordStore.LoadSucceedsIff | CCP.c:32-50 | Loading succeeds if and only if every line before the end of the file and before the tenth record is well formed. One bad line fails the whole load even after good ones. |
| RecordStore.LoadIgnoresLinesBeyondCapacity | CCP.c:32 | Once 10 lines are read, loading stops: the result is the same as for the first 10 lines alone, whatever follows. |
| RecordStore.FormatAll | CCP.c:66-71 | The file written holds one line per record. That each line reads back as its record, in table order, is `SaveLoadRoundTrip`. |
| RecordStore.SaveTo | CCP.c:58-74 | A save never changes whether the file can be written. A file that cannot be opened for writing is left exactly as it was. Otherwise the file is replaced by one line per record, which `SaveLoadRoundTrip` shows reload to the table. |
| RecordStore.SaveLoadRoundTrip | CCP.c:66-71 | Saving a table of at most 10 records with savable names and loading the file again gives back the same pins, names and cents in the same order. |
| RecordStore.LoadedRecordsSavable | CCP.c:35 | Every table that loads is within capacity, and all its names can be written back. |
| RecordStore.AccountList.constructor | CCP.c:16-19 | A new table has 10 slots and no record in use. |
| RecordStore.AccountList.Load | CCP.c:22-55 | Returns success exactly when the file loads, and then holds the loaded records. A missing file leaves the table unchanged. After a malformed line, the records before it stay in the table and the failure names line `count + 1`. |
| RecordStore.AccountList.Add | CCP.c:36-42 | Storing a record that was read appends it after the records already in the table. |
| RecordStore.AccountList.Save | CCP.c:58-74 | When the file can be opened for writing, it is replaced by one formatted line per record in table order. Otherwise the file is left as it was. |
| Session.FirstMatch | CCP.c:99-104 | Returns the smallest index whose pin equals the entered one, or -1 exactly when no record has it. |
| Session.FindPin | CCP.c:99-109 | The login loop over the table returns the first-match index, or -1. |
| Session.Transact | CCP.c:132-169 | A positive withdrawal within the balance takes exactly that amount and never overdraws. One above the balance is refused as insufficient. A positive deposit adds exactly its amount. A missing or non-positive amount is refused for both. Check Balance reports the balance. Only Exit ends the loop, and it says goodbye by name. The balance changes only through a reported withdrawal or deposit, and the table is saved exactly then. A withdrawal or deposit is reported only for its own choice. Non-numeric input is reported as invalid input, a choice outside 1–4 as an invalid option, and neither, nor Check Balance or Exit, changes the balance or saves. |
| Session.WithdrawThenDepositRestores | CCP.c:143-156 | Depositing the amount just withdrawn restores the balance. |
| Session.Step | CCP.c:111-169 | One menu pass changes no record but the active one, and never its pin or name. The table size stays the same. Any change is followed by a save, a pass that changes nothing saves nothing, and after Exit nothing changes. |
| Session.Replay | CCP.c:118-170 | Over any sequence of requests, no other record, no pin, no name and no count changes. A non-negative active balance stays non-negative. A file that cannot be written is never changed. |
| Session.ReplayStopsAtExit | CCP.c:163-166 | Once Exit is chosen, the remaining input is not served. |
| Session.StepKeepsStoreInSync | CCP.c:143-158 | With a writable file, if the file reloads to the table before a menu pass, it still does after it. |
| Session.ReplayKeepsStoreInSync | CCP.c:118-170 | With a writable file, after every request the file reloads to exactly the table in memory. |
| Session.SessionRun | CCP.c:77-171 | The menu is reached if and only if the load succeeds, the PIN is numeric and some record has it. Every other run leaves the file untouched, and so does every run on a file that cannot be written. A missing file, and only that, is reported as not found. A malformed line is reported with its line number, a non-numeric PIN on a loaded table as unreadable, and a numeric PIN that no record has as a mismatch. |
| Session.SessionChangesOnlyActiveBalance | CCP.c:77-171 | With a writable file, after a whole session the file reloads to the original table, except that the logged-in account's balance may differ. |
| Session.Serve | CCP.c:126-169 | Updates the active record's balance in place as `Transact` says. It saves the table exactly when the balance changed, and leaves every other record alone. |
| Session.Menu | CCP.c:118-170 | The menu loop on the in-memory table ends in the state `Replay` gives for the requests served. |
| Session.AtmMachine | CCP.c:77-171 | The whole run (load, one PIN attempt, search, menu) ends with the file and outcome that `SessionRun` gives. |

## Left out

- File I/O (`fopen`, `fclose`, the fixed file name) is not modelled. The file is its list of lines, and two flags stand for the cases where it cannot be opened. When a save cannot open the file, the file is left as it was and the in-memory change stays, as in the source; there is no rollback.
- Console I/O is not modelled. This covers the `printf` messages, the `scanf` calls and the `getchar` loops that flush input. The PIN, the menu choices and the amounts arrive already parsed.
  - The `getchar` loop before the PIN prompt discards one line of input before the PIN is read. The model does not include that.
  - Once input ends, the source spins forever in its invalid-input branch. In the model, the menu loop ends when the request sequence runs out.
- IEEE `float` balances and amounts are not modelled; balances are exact integer cents. Float rounding and the precision that large balances lose are out of scope, and so are input amounts finer than a cent.
- `fscanf` whitespace rules are not modelled. The model reads a clean line grammar: `[+-]digits`, then a comma, then 1–49 characters with no comma, then a comma, then `[+-]digits` with an optional `.` and up to two digits. The source also does the following, which the model does not:
  - skips leading whitespace before the pin, and before the balance (`%f` skips it);
  - ignores blank lines, because the `\n` directive matches any run of whitespace;
  - swallows whitespace after the balance through that same directive, so a line ending in `\r` (a CRLF file) loads in the source but is malformed in the model;
  - accepts exponent, hexadecimal and `inf`/`nan` forms and more than two fraction digits in the balance, and a balance with no digit before the point (`.50`);
  - reads the next record from characters that follow a balance on the same line.
- A name in the source can take in a newline or a NUL character, because `%49[^,]` reads across lines. In the line model a name never spans lines, so `ParseLine` rejects a name that contains a line break. A NUL is kept: in the source the name string, and so the `%s` that writes it back, ends at that NUL, while the model keeps the characters after it through load and save.
- Whether the file can be opened for writing is fixed for a whole run (`Disk.writable`). A save that fails after an earlier one succeeded, or the reverse, is not modelled. `ReplayKeepsStoreInSync`, `SessionChangesOnlyActiveBalance` and `SessionRun` hold under that assumption.
- Text encodings are not modelled. Each character of a line stands for one byte of the file, so the 49-character name limit is the source's 49-byte limit (`char name[50]` and `%49[^,]`). A multi-byte UTF-8 character counts as several characters, and Unicode text as such is not modelled.
- 32-bit `int` overflow of a pin is not modelled. Pins are unbounded integers.
- `main` and the exit code (CCP.c:173-176) carry no logic.
- Concurrent runs against the same file are not modelled. The program is single-threaded.
