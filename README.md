# ATM and bank, modelled in Dafny

The system is a toy ATM protocol with two processes.

- **The bank** keeps an in-memory table of accounts: 100 buckets chosen by the djb2 hash of the user name, each bucket a chain of `User` records. The operator types `create-user`, `deposit` and `balance` at the bank's console. The ATM sends the bank `check-user`, `balance` and `withdraw` requests, and the bank replies with fixed strings.
- **The ATM** is a two-state session machine, anonymous or logged in as one user, driven by `begin-session`, `balance`, `withdraw` and `end-session`. Logging in asks the bank whether the user exists, reads the PIN from the user's card file, prompts for a PIN and compares the two.
- **A fuzzing target** next to them reverses a C string in place, after cutting the input line at its first newline.

The model has six modules.

| file | module | what it holds |
|---|---|---|
| `ctext.dfy` | `CText` | C's `int` as a 32-bit value with wrap-around, the `%s`/`%<width>s` and `%d` conversions of `scanf`, the `%d` of `printf`, and the `strcspn(s, "\n")` newline trim. Each conversion has lemmas that say what it reads and that it reads back what `printf` wrote. |
| `ledger.dfy` | `Ledger` | The account table as a value of type `seq<seq<User>>`. `hash_function` is a function giving the bucket index, and `find_user` one giving the record found, if any. `create_user`, `deposit`, `check_balance` and both dispatchers are functions that return the new table and the message. Around them are the lemmas about what each one accepts, refuses and changes, and the table invariant every command keeps. |
| `bank.dfy` | `Bank` | The bank as the C code runs it: the `hash_function` and `find_user` loops, and a class holding `users[MAX_USERS]` as an `array<seq<User>>` updated in place. Each method is proved to leave the table and produce the message that `Ledger` gives, and to keep the invariant. |
| `atm.dfy` | `Atm` | The session value, `authenticate_user` as a decision on its inputs, and `Step` for `atm_process_command`. The class `Atm` holds the two fields `is_authenticated` and `current_user`, and its `ProcessCommand` is proved against `Step`. The module-level method `AuthenticateUser` is proved against `Authenticate`. |
| `reverse.dfy` | `Reverse` | `reverse_string` as the swap loop on an `array<char>` holding a NUL-terminated buffer, and the trim in `main`. |
| `protocol.dfy` | `Protocol` | The processes together. The bank's formats read the requests the ATM composes as the same user and amount. A whole session is followed through the model: create a user, log in, withdraw, log out. |

Inputs and outputs become values:
- A message sent is an element of a returned `sent` sequence.
- Text printed is a returned string, including its `\n`. This covers the bank's console lines. A reply the bank sends to the ATM has no newline, as in the code.
- What a command reads is an `Atm.World` parameter: the bank's reply (`None` when the receive returns no bytes), the card files by user name, and all the standard input from the PIN prompt on. `scanf("%4s")` skips white space, newlines included, so a blank line at the prompt makes it wait for the next line. It reads no PIN only when that input is all white space, which is end of input. After the PIN, the `getchar` loop at atm.c:112-113 needs a newline in that input to end.

A model string is the content of a C string, the characters before the first NUL, one character per byte.

Behaviour of the code worth noting:
- `create_user` checks only the PIN's length, not that it is numeric, though the comment at bank.c:62 speaks of a 4-digit PIN.
- The typed PIN and the card's PIN are both cut to four characters by `%4s`, so typing `12345` opens a card holding `1234` (`Atm.LongPinAccepted`).
- A failed receive does not stop authentication (`Atm.FailedReceiveFallsThrough`).
- The bank reads its verb with an unbounded `%s` (a width of 0 in the model); the ATM uses `%19s`.
- A `%d` value out of range is saturated to a `long` and then truncated to an `int`, as glibc does on a 64-bit target. C leaves it undefined.
- The overflow test in `deposit` (bank.c:111) is evaluated with 32-bit wrap-around.

## Model

| member | source | states |
|---|---|---|
| CText.Wrap32 | atm-main/bank/bank.c:234 | The conversion to `int` differs from its argument by a multiple of 2^32, and leaves every value in the `int` range as it is. |
| CText.AddWrap32Wraps | atm-main/bank/bank.c:111 | The wrap-around sum of two `int`s is their true sum truncated to `int`. |
| CText.AddWrap32 | atm-main/bank/bank.c:111 | The C sum `user->balance + amount` under wrap-around is the true sum whenever that fits in an `int`. AddWrap32Wraps gives the truncation otherwise. |
| CText.Saturate64 | atm-main/bank/bank.c:234 | The `long` that `%d` converts through lies in the `long` range. It is the numeral's value when that fits, and otherwise the bound on the numeral's side. |
| CText.OverflowTest | atm-main/bank/bank.c:111 | For a non-negative amount, the test `balance + amount < balance` under wrap-around holds exactly when the true sum exceeds 2^31-1. |
| CText.SignedChar | atm-main/bank/bank.c:74-77 | The value added to the hash for a character lies in -128..127 and agrees with the byte modulo 256, as a signed `char`. |
| CText.ScanFieldMeaning | atm-main/bank/bank.c:193 | A `%<width>s` conversion fails exactly when only white space is left. Otherwise it reads a field: white space, then one to `width` non-white-space characters, stopping at white space, at the end or at the width. |
| CText.ScanField | atm-main/bank/bank.c:193 | A `%<width>s` conversion that succeeds reads a field of one to `width` characters (any number for a width of 0), and the index after it lies past the start and within the text. ScanFieldMeaning says which field it is. |
| CText.FieldAtScanned | atm-main/bank/bank.c:193 | Only one field fits that description from a given index: the one the conversion returns. |
| CText.ScanWrittenField | atm-main/bank/bank.c:193 | A word written into a text, preceded by white space and followed by white space or the end, is read back by `%<width>s` with the index after it. |
| CText.SecondFieldWord | atm-main/atm/atm.c:140 | What `%*s %<width>s` reads is a non-empty word within the width, with no white space in it. |
| CText.SecondField | atm-main/bank/bank.c:193 | A field that `%*s %<width>s` reads is non-empty and within the width. |
| CText.IntAfterField | atm-main/atm/atm.c:196 | `%*s %d` gives the `int` that ScanInt reads after the first field, or nothing when either conversion fails. Protocol.WithdrawLineScanned reads back an amount the ATM's own line holds. |
| CText.ScanIntMeaning | atm-main/bank/bank.c:234 | `%d` fails exactly when no digit follows the white space and the optional sign. On success it stops after a digit, at a non-digit or the end. |
| CText.ScanInt | atm-main/bank/bank.c:234 | A `%d` conversion that succeeds ends past its start and within the text. ScanIntMeaning says where it fails and stops, and ScanFormattedInt what it reads back. |
| CText.FormatNat | atm-main/bank/bank.c:255 | The numeral `printf` writes for a natural number is non-empty, is all digits, has no leading zero, and has that number as its value. |
| CText.FormatInt | atm-main/bank/bank.c:255 | `%d` in `printf` and `snprintf` writes a non-empty numeral. FormatIntShape gives its shape, and ScanFormattedInt shows `%d` reads it back. |
| CText.FormatIntShape | atm-main/bank/bank.c:255 | An `int` printed with `%d` starts with `-` exactly when it is negative, never starts with white space, and continues in digits only. |
| CText.ScanFormattedInt | atm-main/bank/bank.c:234 | `%d` reads back exactly the `int` that `printf("%d")` wrote, and the index after it, wherever the numeral stands after white space and is not followed by a digit. |
| CText.BeforeNewline | atm-main/atm/atm.c:134 | The trimmed command is a prefix of the command with no newline in it, and it is cut just before the first newline if there is one. |
| Ledger.EmptyTable | atm-main/bank/bank.c:67-68 | The table at start-up has every one of the 100 buckets empty. |
| Ledger.Djb2 | atm-main/bank/bank.c:73-78 | The hash stays below 2^64, as the `unsigned long` arithmetic does. |
| Ledger.Bucket | atm-main/bank/bank.c:79 | A name's bucket lies in 0..99. |
| Ledger.Find | atm-main/bank/bank.c:86-90 | The walk stops at a record with that name, and no earlier record has it. It finds nothing exactly when no record of the chain has that name. |
| Ledger.Lookup | atm-main/bank/bank.c:83-92 | A record `find_user` returns has the name looked up. |
| Ledger.UpdateBalance | atm-main/bank/bank.c:117 | The store into `user->balance` (and `account->balance` at bank.c:253) keeps the bucket's length, and gives the record at that place the new balance with its name and PIN unchanged. |
| Ledger.LookupNone | atm-main/bank/bank.c:83-92 | `find_user` returns null exactly when no record in the name's bucket has that name, and otherwise returns a record of that bucket. |
| Ledger.CreateUser | atm-main/bank/bank.c:140-164 | Bad arguments give the usage message and leave the table. These are a negative balance, a name longer than 250 characters, or a PIN whose length is not 4. An existing name gives "Error: user <name> already exists" and leaves the table. Otherwise `find_user` afterwards finds the new record with the given PIN and balance. |
| Ledger.CreateUserKeepsOthers | atm-main/bank/bank.c:162-164 | A successful creation prepends the record to the name's bucket and leaves every other bucket, and every other name's lookup, as it was. It prints "Created user <name>" and a newline. |
| Ledger.CreateUserTwice | atm-main/bank/bank.c:148-152 | Creating the same name a second time, with any PIN and balance, is refused and changes nothing. |
| Ledger.CreateUserPreservesValid | atm-main/bank/bank.c:140-164 | A creation keeps the table invariant. Every record sits in its name's bucket, names are unique, names have at most 250 characters, PINs have 4, and balances are non-negative. |
| Ledger.Deposit | atm-main/bank/bank.c:95-119 | A deposit that is not accepted leaves the table unchanged. |
| Ledger.DepositRefused | atm-main/bank/bank.c:97-115 | A negative amount prints the usage line, an unknown name "No such user", and a sum above 2^31-1 "Too rich for this program". The table is unchanged in each case. |
| Ledger.DepositCredited | atm-main/bank/bank.c:117-118 | An accepted deposit raises that user's balance by exactly the amount. Every other name finds what it found before, and the line printed is "$<amount> added to <name>'s account". |
| Ledger.CheckBalance | atm-main/bank/bank.c:122-138 | It prints "No such user" exactly when the lookup fails, and otherwise "$<balance>", each line ending in a newline. |
| Ledger.Withdraw | atm-main/bank/bank.c:240-256 | The table changes only for a non-negative amount, a known user and a balance that covers the amount. |
| Ledger.NameAmountArgs | atm-main/bank/bank.c:234 | A name that `%*s %250s %d` reads has one to 250 characters. |
| Ledger.CreateUserArgs | atm-main/bank/bank.c:288 | A name that `%*s %250s %4s %d` reads has one to 250 characters, and a PIN one to four. |
| Ledger.Verb | atm-main/bank/bank.c:188 | The verb `%s` reads is empty exactly when the command holds only white space. |
| Ledger.WithdrawRefused | atm-main/bank/bank.c:234-251 | A negative amount gets the usage reply, an unknown name "No such user", and a balance below the amount "Insufficient funds". The table is unchanged in each case. |
| Ledger.WithdrawDebited | atm-main/bank/bank.c:253-256 | A covered withdrawal lowers that user's balance by exactly the amount and changes no other lookup. The reply is "$<amount> dispensed". |
| Ledger.RemoteCommand | atm-main/bank/bank.c:183-261 | A verb other than `check-user`, `balance` or `withdraw` gets "Invalid command" with the table unchanged. Only `withdraw` can change the table. |
| Ledger.RemoteCheckUser | atm-main/bank/bank.c:191-209 | `check-user` changes nothing, and it replies "User exists" exactly when `find_user` succeeds and "No such user" exactly when it fails. |
| Ledger.RemoteBalance | atm-main/bank/bank.c:212-230 | `balance` changes nothing, and it replies "$<balance>" of the record found or "No such user". |
| Ledger.RemoteWithdrawUsage | atm-main/bank/bank.c:234-238 | A `withdraw` whose name and amount do not scan, or whose amount is negative, gets the usage reply and changes nothing. |
| Ledger.RemoteRefusesLocalVerbs | atm-main/bank/bank.c:258-261 | `create-user` and `deposit` arriving from the ATM are answered "Invalid command" and change nothing. |
| Ledger.LocalCommand | atm-main/bank/bank.c:279-317 | A verb other than `create-user`, `deposit` or `balance` prints "Invalid command" with the table unchanged, and `balance` changes nothing. |
| Ledger.FindUpdated | atm-main/bank/bank.c:117 | Changing a record's balance in its place leaves the walk to every name where it was. |
| Ledger.LookupUpdated | atm-main/bank/bank.c:117 | After the balance update, the updated name finds the updated record. |
| Ledger.LookupOtherUpdated | atm-main/bank/bank.c:253 | After a balance update, every other name finds what it found before. |
| Ledger.UpdateBalancePreservesValid | atm-main/bank/bank.c:117 | Writing a non-negative balance into a record keeps the table invariant. |
| Ledger.DepositPreservesValid | atm-main/bank/bank.c:95-119 | Every deposit, accepted or not, keeps the table invariant. |
| Ledger.WithdrawPreservesValid | atm-main/bank/bank.c:232-257 | Every withdrawal keeps the table invariant, so no balance becomes negative. |
| Ledger.RemoteCommandPreservesValid | atm-main/bank/bank.c:183-261 | No request from the ATM breaks the table invariant. |
| Ledger.LocalCommandPreservesValid | atm-main/bank/bank.c:279-317 | No operator command breaks the table invariant. |
| Ledger.WithdrawUndoesCredit | atm-main/bank/bank.c:253 | Withdrawing an amount just written into a record writes the old balance back. |
| Ledger.DepositThenWithdraw | atm-main/bank/bank.c:95-256 | An accepted deposit followed by a remote withdrawal of the same amount gives back the original table exactly, with the reply "$<amount> dispensed". This holds for any account whose balance is non-negative, as the invariant keeps every balance. |
| Bank.HashFunction | atm-main/bank/bank.c:71-80 | The loop returns a bucket index below 100, and it is the one the djb2 hash of the name gives. |
| Bank.Bank.constructor | atm-main/bank/bank.c:67-68 | The bank starts with an empty table that satisfies the invariant. |
| Bank.Bank.FindUser | atm-main/bank/bank.c:83-92 | The chain walk finds nothing exactly when the lookup fails, and then no record of the bucket has the name. Otherwise it gives the place of the record the lookup returns, in the name's bucket, with that name. |
| Bank.Bank.CreateUser | atm-main/bank/bank.c:140-164 | The table is changed in place into `Ledger.CreateUser`'s table, the message is that function's, and the invariant is kept. |
| Bank.Bank.Deposit | atm-main/bank/bank.c:95-119 | The balance is written through the record found, so the table and the message become `Ledger.Deposit`'s. The invariant is kept. |
| Bank.Bank.CheckBalance | atm-main/bank/bank.c:122-138 | The message is `Ledger.CheckBalance`'s, and the table is only read. |
| Bank.Bank.Withdraw | atm-main/bank/bank.c:232-257 | The table and the reply become `Ledger.Withdraw`'s, and the invariant is kept. |
| Bank.Bank.ProcessRemoteCommand | atm-main/bank/bank.c:183-261 | The table and the reply sent become `Ledger.RemoteCommand`'s, and the invariant is kept. |
| Bank.Bank.ProcessLocalCommand | atm-main/bank/bank.c:279-317 | The table and the message printed become `Ledger.LocalCommand`'s, and the invariant is kept. |
| Atm.PinTokenMeaning | atm-main/atm/atm.c:94 | `%4s` finds no token exactly when the text is all white space. A token has one to four characters and no white space. |
| Atm.PinToken | atm-main/atm/atm.c:105 | A PIN that `%4s` reads has one to four characters. |
| Atm.CardOf | atm-main/atm/atm.c:85 | The card file opens exactly when the user has an entry in the card store. |
| Atm.Received | atm-main/atm/atm.c:181-185 | The terminal prints nothing exactly when the receive returned no bytes. Otherwise it prints the reply and a newline. |
| Atm.Verb | atm-main/atm/atm.c:136 | The verb `%19s` reads has at most 19 characters, so it fits `cmd[20]`. |
| Atm.Authenticate | atm-main/atm/atm.c:66-69 | Authentication always sends exactly one message to the bank, "check-user <user>". |
| Atm.Step | atm-main/atm/atm.c:128-232 | A command changes the session only when it is `begin-session` while anonymous, or `end-session` while logged in, which returns the session to anonymous. |
| Atm.BeginSession | atm-main/atm/atm.c:138-160 | `begin-session` changes the session only from anonymous. |
| Atm.Balance | atm-main/atm/atm.c:162-186 | `balance` never changes the session. |
| Atm.Withdraw | atm-main/atm/atm.c:188-213 | `withdraw` never changes the session. |
| Atm.EndSession | atm-main/atm/atm.c:215-227 | `end-session` leaves the session anonymous and sends nothing. |
| Atm.Atm.constructor | atm-main/atm/atm.c:33-34 | A new ATM is not authenticated and has an empty `current_user`. |
| Atm.Atm.ProcessCommand | atm-main/atm/atm.c:128-232 | The fields change in place into `Step`'s next session, the messages sent and the text printed are `Step`'s, and the invariant (`is_authenticated` exactly when `current_user` is non-empty) is kept. |
| Atm.AuthenticateUser | atm-main/atm/atm.c:61-126 | The early-return procedure gives the verdict, the messages and the text of `Authenticate`. |
| Atm.StepKeepsValid | atm-main/atm/atm.c:158-159 | Every command keeps the session well formed. The current user is always a name `%250s` read. |
| Atm.AuthenticateIff | atm-main/atm/atm.c:116-125 | Authentication succeeds exactly when the bank did not reply "No such user", the card file opens and holds a token, and the token typed equals the card's. |
| Atm.NoSuchUserStops | atm-main/atm/atm.c:77-81 | A "No such user" reply fails authentication and prints only "No such user", whatever the card and the typed line. |
| Atm.BadCardRefuses | atm-main/atm/atm.c:85-99 | A missing card file, or one holding only white space, fails without a PIN prompt, with the matching message. |
| Atm.FailedReceiveFallsThrough | atm-main/atm/atm.c:73-85 | A receive with no bytes is treated exactly like any reply other than "No such user". |
| Atm.PinTokenOf | atm-main/atm/atm.c:105 | A word of at most four characters at the start of a text is the token `%4s` reads, when it is followed by white space or the end or is four characters long. |
| Atm.LongPinAccepted | atm-main/atm/atm.c:94-125 | Input that starts with the card's four-character PIN, with a newline somewhere after it so that the `getchar` loop ends, authenticates whatever else the line holds. |
| Atm.LogInOnlyByAuthentication | atm-main/atm/atm.c:153-159 | A command that logs a user in is a `begin-session` issued while anonymous. It logs in the name the command gave, and only on a successful authentication. |
| Atm.BeginSessionLogsIn | atm-main/atm/atm.c:137-159 | An anonymous `begin-session <user>` that authenticates logs that user in, sends only `check-user <user>`, and prints the "Extracted user" line followed by what authentication printed. |
| Atm.AnonymousRefuses | atm-main/atm/atm.c:164-221 | While anonymous, `balance`, `withdraw` and `end-session` print "No user logged in", send nothing and stay anonymous. |
| Atm.AnonymousSendsOnlyCheckUser | atm-main/atm/atm.c:128-232 | An anonymous ATM sends nothing except the `check-user` of a `begin-session` that names a user. |
| Atm.BeginWhileLoggedIn | atm-main/atm/atm.c:145-151 | `begin-session` while logged in prints the extracted name and "A user is already logged in", sends nothing and keeps the session. |
| Atm.BalanceRequest | atm-main/atm/atm.c:170-177 | A logged-in `balance` sends exactly "balance <current user>" and keeps the session. |
| Atm.WithdrawRequest | atm-main/atm/atm.c:196-211 | A logged-in `withdraw` with a missing, unreadable or negative amount prints the usage line and sends nothing. Otherwise it sends exactly "withdraw <current user> <amount>" and prints the reply. The session is kept either way. |
| Atm.EndSessionLogsOut | atm-main/atm/atm.c:223-226 | `end-session` while logged in returns to anonymous, sends nothing, and prints "User logged out". |
| Atm.UnknownVerb | atm-main/atm/atm.c:229-232 | An unknown verb prints "Invalid command", sends nothing and keeps the session. |
| Reverse.Strlen | atm-main/fuzz-test/reverse_string.c:7 | The length is the index of the first NUL. |
| Reverse.CString | atm-main/fuzz-test/reverse_string.c:7 | The string in a buffer is its prefix up to the first NUL, and holds no NUL. |
| Reverse.Reversed | atm-main/fuzz-test/reverse_string.c:6-13 | The reversal has the length of its argument. ReversedAt says where each character goes. |
| Reverse.Strcspn | atm-main/fuzz-test/reverse_string.c:24 | The cut falls at the first newline or NUL of the buffer, within the string. |
| Reverse.ReversedAt | atm-main/fuzz-test/reverse_string.c:8-12 | Position i of the reversal holds the character at position len-1-i. |
| Reverse.ReversedByIndex | atm-main/fuzz-test/reverse_string.c:8-12 | A string whose every position holds the mirrored character is the reversal. |
| Reverse.ReversedTwice | atm-main/fuzz-test/reverse_string.c:6-13 | Reversing twice gives back the original string. |
| Reverse.ReversedPermutes | atm-main/fuzz-test/reverse_string.c:9-11 | The reversal has the same characters, each as often. |
| Reverse.TrimmedString | atm-main/fuzz-test/reverse_string.c:24 | Writing a NUL where `strcspn` points leaves the string cut at its first newline. |
| Reverse.ReverseString | atm-main/fuzz-test/reverse_string.c:6-13 | The string in the buffer is reversed in place, with the same length. The NUL and every position after it are left as they were, and the buffer is a permutation of the original. |
| Reverse.SwapsReverse | atm-main/fuzz-test/reverse_string.c:8-12 | When the loop has swapped the first half with the mirrored second half and left the middle, the buffer's string is the reversal, and everything from the NUL on is untouched. |
| Reverse.TrimNewline | atm-main/fuzz-test/reverse_string.c:24 | The buffer gets a NUL at the first newline or NUL and is otherwise unchanged. |
| Reverse.ReverseLine | atm-main/fuzz-test/reverse_string.c:24-27 | After the trim and the reversal, the buffer holds the line before its first newline, reversed, and "Reversed string: " followed by it is printed. |
| Protocol.TwoWordsScanned | atm-main/bank/bank.c:193 | `%*s %<width>s` on "<verb> <field>" reads the verb and then the field. |
| Protocol.NameAmountScanned | atm-main/bank/bank.c:234 | `%*s %250s %d` on "<verb> <name> <amount>" reads that name and that amount. |
| Protocol.NamePinAmountScanned | atm-main/bank/bank.c:288 | `%*s %250s %4s %d` on "<verb> <name> <pin> <amount>" reads that name, PIN and amount. |
| Protocol.BankReadsCheckUser | atm-main/bank/bank.c:191-209 | The bank reads the ATM's "check-user <user>" as that user, and replies "User exists" or "No such user". |
| Protocol.BankReadsBalance | atm-main/bank/bank.c:212-230 | The bank reads the ATM's "balance <user>" as that user's balance query. It changes nothing, and its reply is the line `check_balance` prints for that user without the newline. |
| Protocol.BankReadsWithdraw | atm-main/bank/bank.c:232-257 | The bank reads the ATM's "withdraw <user> <amount>" as a withdrawal of that amount from that user. |
| Protocol.BankReadsDeposit | atm-main/bank/bank.c:295-302 | The operator's "deposit <name> <amount>" is read as the deposit of that amount to that name. |
| Protocol.BankReadsCreateUser | atm-main/bank/bank.c:286-293 | The operator's "create-user <name> <pin> <balance>" is read as that creation for any PIN of at most four characters, including the short ones `create_user` then refuses. |
| Protocol.AtmReadsBeginSession | atm-main/atm/atm.c:134-140 | "begin-session <name>" survives the trim and is read as that verb and that name. |
| Protocol.AtmReadsWithdraw | atm-main/atm/atm.c:196 | "withdraw <amount>" survives the trim and is read as that verb and that amount. |
| Protocol.AtmReadsEndSession | atm-main/atm/atm.c:215 | "end-session" is read as that verb. |
| Protocol.WithdrawReachesLedger | atm-main/atm/atm.c:203 | What a logged-in `withdraw` sends is processed by the bank as the ledger's withdrawal for the current user and the amount typed. |
| Protocol.UnknownUserNotPrompted | atm-main/atm/atm.c:66-81 | When the bank knows no such user, `begin-session` sends only the `check-user`, prints "No such user", asks for no PIN and stays anonymous. |
| Protocol.CreatedUserLogsIn | atm-main/atm/atm.c:85-125 | A user the operator creates logs in with the card `create_user` writes by typing that PIN and then, anywhere later, a newline. The ATM prints the extracted name, the "PIN? " prompt and "Authorized", and sends only the `check-user`. |
| Protocol.WithdrawDispenses | atm-main/atm/atm.c:202-211 | A covered withdrawal: the ATM sends "withdraw <user> <amount>", the bank takes exactly the amount from that account and no other, and the ATM prints "$<amount> dispensed". |
| Protocol.NewAccountWithdraw | atm-main/bank/bank.c:247-256 | A withdrawal from a known record leaves that record with the balance lowered by the amount, and the ATM prints "$<amount> dispensed". |
| Protocol.CreatedAccountOpens | atm-main/bank/bank.c:286-293 | The operator's `create-user` keeps the table invariant and stores the new record, and the ATM then logs that user in when the PIN is typed followed by a newline. |
| Protocol.WithdrawThenLogOut | atm-main/atm/atm.c:188-227 | Logged in to an account that holds at least the amount, the user withdraws it, sees "$<amount> dispensed", and `end-session` returns the ATM to anonymous. The record then holds the balance lowered by the amount. |
| Protocol.SessionScenario | atm-main/atm/atm.c:128-232 | Create a user, log in by typing the PIN and a newline, withdraw no more than the balance, and log out. The ATM logs in, prints "$<amount> dispensed", and ends anonymous, and the account holds the balance lowered by the amount. |

## Left out

- Socket setup and the datagram send and receive (`bank_create`, `bank_send`, `bank_recv`, `atm_create`'s socket part, `atm_send`, `atm_recv`): network I/O. A message sent is an element of the returned `sent` sequence, and a receive is the `reply` of `Atm.World`.
- The lengths passed to `bank_send`, some of which include the terminating NUL: the ATM stops at the first NUL, so a reply is modelled as its text.
- The card file that `create_user` writes (bank.c:166-177): file I/O. The ATM's card store is the `cards` map of `Atm.World`. `create_user` is modelled on its success path. The failure path frees a record that is already linked into the table (bank.c:170-174), a use-after-free that the model does not reproduce.
- The "Received command: ..." line the remote dispatcher prints (bank.c:190): console output that is not part of the reply.
- The loop that consumes the rest of the PIN line with `getchar` (atm.c:112-113). When a newline follows the PIN, it only changes what the console reads next. When the input ends with no newline after the PIN, `getchar` returns EOF forever, and `authenticate_user` never returns. The model does not represent that hang, so there it still gives a verdict. The lemmas about logging in require a newline after the PIN.
- Atm.Authenticate: gives a verdict also for input with no newline after the PIN, where the C function never returns (atm.c:112-113). The same holds for Atm.AuthenticateUser, Atm.AuthenticateIff and Atm.Step, which give that verdict.
- `response[n] = '\0'` when 100 bytes are received (atm.c:76, 183, 210) writes one element past the buffer. The model takes the reply as a string, whatever its length.
- A blank command: C then compares an uninitialised `cmd`. The model treats the verb as empty, which matches no command and gives "Invalid command".
- Fixed buffers and `strcpy`: C memory safety. Only the length limits the formats enforce are modelled, and the bank's `%s` into `cmd[20]` reads a verb of any length.
- `int len = strlen(str)` in `reverse_string` truncates a length above 2^31-1. The model's length is unbounded.
- The reading of the line with `fgets` in the fuzzing target's `main`: the buffer is a parameter holding at least one NUL.
- Pointers and aliasing: records are values in their chains, and the `User *` that `find_user` returns is the record's place, `Bank.Ref`. A write through it is a write to that place.
- `is_authenticated` is a `bool` rather than an `int` that holds 0 or 1.
- atm-main/init/init.c, the provisioning tool, and atm-main/fuzz-test/reverse_fuzzer.c, the libFuzzer harness, are not part of this model. atm-main/atm/atm.h holds only declarations.
- Concurrency: the programs are single-threaded dispatch loops.
- Ledger.Deposit: the test `user->balance + amount < user->balance` (bank.c:111) relies on signed overflow, which C leaves undefined, so an optimising compiler may fold it to `amount < 0` and never print "Too rich for this program". The model evaluates the test with 32-bit wrap-around (`CText.AddWrap32`), as two's-complement hardware arithmetic gives.
