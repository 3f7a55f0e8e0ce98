# CP363 Bank Management Database — a Dafny model of its core

The bank management system is a small MySQL-backed banking application. It
comes with two front ends: a Tkinter desktop GUI (`BankingSystemGUI`) and a
console menu (`banking_app.py`). This project models the parts of it that
hold logic, independent of widgets and SQL text:

- **`SecurityManager`** (`security.dfy`, module `Security`):
  - the salted password hash;
  - the password-strength rules;
  - `sanitize_input`, which deletes `; ' " \` and then strips whitespace;
  - the e-mail and phone regular expressions, read as languages and matched
    by hand-written matchers proved equal to them;
  - the session-timeout test.
- **`BankingSystemGUI`** (`banking_gui.dfy`, module `BankingGui`):
  - a class with the fields `current_user`, `last_activity` and
    `login_attempts`, and the methods `login`, `verify_credentials`,
    `check_session` and `logout`;
  - the checks that the "Add Customer" and "Edit Customer" dialogs make
    before they write;
  - the way the "Add Account" dialog reads a customer id back out of the
    combo-box entry `"<name> (<id>)"`.
- **The console application** (`banking_app.dfy`, module `BankingApp`):
  - `execute_query`'s three kinds of result;
  - how `display_results` turns a list of row dictionaries into headers and
    table data;
  - `initialize_database`, which cuts the SQL script at `;`, strips each
    piece, skips blank ones and runs the rest, ignoring driver errors;
  - the input checks of `view_transaction_history`: account ids go through
    `int()`, dates through `strptime('%Y-%m-%d')`, and the type through a
    fixed menu.
- **Python string built-ins** (`strings.dfy`, module `Strings`): `isspace`,
  `strip`, `lstrip`, `rstrip`, `rstrip(ch)`, `split(sep)`, `join`, `int()`
  on text and `str()` of an integer, with the laws the rest of the model
  uses.

Outside effects become parameters of the model:

| effect | how the model takes it |
|---|---|
| the database | a value (`UserStore`, `DriverOutcome`, the table count, and a `rejects` predicate on the statements already tried and the next statement, true when the driver raises on it) |
| the clock | whole seconds (`now`) |
| SHA-256 | a `string -> string` function |
| the salt | a string |
| `float()` | a `string -> Option<real>` function |
| the script file | `Option<string>` (`None` when it cannot be read) |

Three behaviours of the code shape the model:

- **`check_session` keeps the user.** On a time-out it only shows the login
  screen: `current_user` and `last_activity` are left as they were
  (`BankingGui.BankingSystemGui.CheckSession`,
  `BankingGui.ExpiredSessionKeepsPrincipal`).
- **The lockout is permanent for the run.** `login` checks the attempt
  counter before it checks the credentials. Once three attempts have failed,
  even the right password is refused, so a success can no longer reset the
  counter (`BankingGui.LockedAfterThreeFailures`).
- **`display_results` shows a failed query like an empty one.**
  `execute_query` prints "Error executing query: …" and returns `None`;
  `display_results` then prints "No results found.", as it does for a query
  that found no rows (`BankingApp.ErrorDisplaysAsEmpty`).

## Model

| member | source | states |
|---|---|---|
| Security.Sanitize | security.py:53-57 | the sanitized text holds none of `; ' " \` and neither starts nor ends with whitespace |
| Security.RemoveDangerousIsSafe | security.py:56 | the regex substitution leaves no dangerous character |
| Security.RemoveDangerousKeptInOrder | security.py:56 | the substitution's output sits in its input at increasing positions |
| Security.RemoveDangerousDropsOnlyDangerous | security.py:56 | every input position it drops holds a dangerous character |
| Security.SanitizeOnlyDeletes | security.py:53-57 | the sanitized text is a subsequence of the input: sanitizing only deletes |
| Security.RemoveDangerousUnchanged | security.py:56 | a text with no dangerous character is left unchanged by the substitution |
| Security.RemoveDangerousConcat | security.py:56 | the substitution distributes over concatenation |
| Security.RemoveDangerousAround | security.py:56 | a dangerous character between two texts vanishes and nothing else changes |
| Security.SanitizeDeletesDangerous | security.py:53-57 | a clean text with one dangerous character inserted sanitizes back to the clean text |
| Security.SanitizeIdempotent | security.py:53-57 | sanitizing an already sanitized text changes nothing |
| Security.HashPassword | security.py:9-12 | the digest is taken of the password followed by the salt (partner: `BankingGui.OnlyEnrolledPasswordAuthenticates`) |
| Security.RemoveDangerous | security.py:56 | the substitution never lengthens the text (partners: the `RemoveDangerous…` lemmas below) |
| Security.Search | security.py:20-26 | `re.search` for a character class finds a match exactly when the text contains a character of the class |
| Security.Every | security.py:62 | true exactly when every character is in the class |
| Security.Span | security.py:62 | the greedy run of a `[...]+` class: all of it in the class, and the next character not |
| Security.LastIndexOf | security.py:62 | finds a position holding the character, none after it holds it, and `None` only when it is absent |
| Security.CheckPassword | security.py:15-29 | the verdict is Strong exactly when the password is strong, and each failure verdict holds exactly when its rule is the first one broken (length 8, then special, then digit, then uppercase) |
| Security.ValidatePassword | security.py:15-29 | the flag is true exactly when the password is strong; an accepted password comes with "Password is valid", a refusal with the message of the first broken rule |
| Security.PasswordMessage | security.py:17-29 | the message of each verdict, as `validate_password` returns it (partner: `ValidatePassword`) |
| Security.MatchEmailSound | security.py:60-63 | a text the matcher accepts lies in the e-mail pattern's language |
| Security.MatchEmailComplete | security.py:60-63 | every text split as the pattern requires is accepted by the matcher |
| Security.MatchEmailCorrect | security.py:60-63 | the matcher accepts exactly the language of the e-mail pattern |
| Security.MatchEmail | security.py:62 | the hand-written matcher of the e-mail pattern (partner: `MatchEmailCorrect`, which proves it equal to the pattern's language) |
| Security.ValidateEmail | security.py:60-63 | accepts exactly `EmailAccepted`: the pattern's language, plus one trailing newline as Python's `$` allows |
| Security.EmailSplitOneAt | security.py:62 | a text split as the e-mail pattern requires has its only `@` at the split |
| Security.ValidEmailHasOneAt | security.py:60-63 | an accepted e-mail address holds exactly one `@` |
| Security.MatchPhoneCorrect | security.py:66-69 | the matcher accepts exactly the phone pattern's language: optional `+`, optional `1`, 9 to 15 digits |
| Security.MatchPhone | security.py:68 | the hand-written matcher of the phone pattern (partner: `MatchPhoneCorrect`) |
| Security.ValidatePhone | security.py:66-69 | accepts exactly `PhoneAccepted`: the phone pattern's language, plus one trailing newline as Python's `$` allows |
| Security.SessionTimedOut | security.py:72-75 | expired when more than 1800 seconds have passed since the last activity (partners: the two lemmas below) |
| Security.SessionTimeoutBoundary | security.py:72-75 | not expired at +0, +1799 and +1800 seconds; expired at +1801 |
| Security.SessionTimeoutMonotonic | security.py:72-75 | once expired, a session stays expired as time goes on |
| BankingGui.BankingSystemGui.constructor | banking_gui.py:27-29 | no user, last activity at construction time, zero failed attempts |
| BankingGui.BankingSystemGui.VerifyCredentials | banking_gui.py:159-180 | succeeds exactly when the user exists and the salted digest of the password equals the stored one; a success records id, name and role, a failure or driver error leaves the user unchanged |
| BankingGui.BankingSystemGui.Login | banking_gui.py:134-157 | an empty sanitized name or empty password changes nothing; three failed attempts refuse further logins; success resets the counter and stamps the time; each failure counts one attempt; all four outcomes are characterised by if-and-only-if |
| BankingGui.BankingSystemGui.CheckSession | banking_gui.py:182-189 | active exactly when the session has not timed out; an active session refreshes the activity time, an expired one changes nothing; the object invariant is kept |
| BankingGui.BankingSystemGui.Logout | banking_gui.py:236-240 | clears the user and stamps the activity time; the object invariant is kept |
| BankingGui.LockedAfterThreeFailures | banking_gui.py:144-155 | after three wrong passwords the right one is refused with "Too many login attempts" |
| BankingGui.ExpiredSessionKeepsPrincipal | banking_gui.py:182-189 | after a time-out the signed-in user is still recorded |
| BankingGui.OnlyEnrolledPasswordAuthenticates | banking_gui.py:170 | with an injective digest, a user authenticates exactly with the password whose digest was stored |
| BankingGui.CheckCustomerForm | banking_gui.py:314-324 | "All fields are required" exactly when a field is empty; the e-mail error exactly when the fields are filled and the e-mail is refused; the phone error when only the phone is refused; no error exactly when all three checks pass |
| BankingGui.SaveNewCustomer | banking_gui.py:312-337 | refused exactly when the form check fails, with that error; otherwise inserts the sanitized name, e-mail and phone |
| BankingGui.SaveEditedCustomer | banking_gui.py:387-414 | refused exactly when the form check fails; otherwise updates the same customer id with the sanitized fields |
| BankingGui.EmailCharsClean | banking_gui.py:318 | an address the pattern accepts holds no dangerous and no whitespace character |
| BankingGui.PhoneCharsClean | banking_gui.py:322 | a phone number the pattern accepts holds no dangerous and no whitespace character |
| BankingGui.SanitizeCleanEntry | security.py:53-57 | sanitizing a clean text, with or without one trailing newline, gives the clean text |
| BankingGui.AcceptedEmailStoredAsMatched | banking_gui.py:318-334 | the stored e-mail is the validated text, less a trailing newline, and still matches the pattern |
| BankingGui.AcceptedPhoneStoredAsMatched | banking_gui.py:322-335 | the stored phone is the validated text, less a trailing newline, and still matches the pattern |
| BankingGui.DangerousOnlyNameStoredEmpty | banking_gui.py:314-333 | a name made of one dangerous character passes the check and is stored empty |
| BankingGui.ComboEntry | banking_gui.py:530 | the entry starts with the name and ends with `)` (partners: `ComboEntryRoundTrip`, `ComboEntryRoundTripLast`) |
| BankingGui.TextAfterFirstParenthesis | banking_gui.py:551 | `split('(')[1].rstrip(')')` holds no `(` and does not end in `)` |
| BankingGui.ParseCustomerId | banking_gui.py:551 | NoParenthesis exactly when there is no `(`; otherwise the integer `int()` reads from the text between the first and second `(` with `)` stripped, or NotAnInteger exactly when `int()` refuses that text, including a text of more than 4300 digits |
| BankingGui.IntToStringPlain | banking_gui.py:530 | the decimal text of an id holds no parenthesis and ends in a digit |
| BankingGui.ComboEntryRoundTrip | banking_gui.py:530-551 | for a name without `(` and an id `str()` can write, the parse of the combo entry gives back the id |
| BankingGui.ParseSignedRejectsParenthesis | banking_gui.py:551 | `int()` refuses a text that holds `)` |
| BankingGui.ParenthesisedNameUnparsable | banking_gui.py:530-551 | for a name such as "Smith (Jr)" the entry's id cannot be parsed back |
| BankingGui.ParseCustomerIdLast | banking_gui.py:551 | the corrected parse reads the text after the last `(`, with the same three outcomes |
| BankingGui.ComboEntryRoundTripLast | banking_gui.py:530-551 | with the corrected parse, every combo entry `str()` can build gives back its id, whatever the name |
| BankingGui.SaveNewAccount | banking_gui.py:543-569 | "All fields are required" exactly when a field is empty; an escaping IndexError exactly when the entry has no `(`; an insert exactly when `int()` (with its 4300-digit limit) reads the id and the balance parses, with those values |
| BankingGui.ChosenCustomerGetsAccount | banking_gui.py:530-555 | choosing a listed customer whose name has no `(`, with a type and a readable balance, opens the account for that customer's id |
| Strings.Strip | security.py:57 | the stripped text is no longer than the input and neither starts nor ends with whitespace |
| Strings.IsSpace | security.py:57 | `str.isspace` on one character: the ASCII and Unicode whitespace `strip` removes (partner: `StripRemovesOnlyWhitespace`) |
| Strings.StripIsSlice | security.py:57 | `strip` keeps one contiguous slice of the text |
| Strings.StripRemovesOnlyWhitespace | security.py:57 | everything `strip` removes from either end is whitespace |
| Strings.StripHasNoNewChar | banking_app.py:96 | `strip` introduces no character the text did not hold |
| Strings.StripUnchanged | security.py:57 | a text without whitespace at its ends is not changed by `strip` |
| Strings.StripTrailingNewline | security.py:57 | `strip` removes one trailing newline from an otherwise stripped text |
| Strings.Split | banking_app.py:92 | a split always has at least one piece (partners: `JoinSplit`, `SplitJoin`) |
| Strings.SplitAtSeparator | banking_gui.py:551 | a text holding the separator splits into at least two pieces |
| Strings.RStripChar | banking_gui.py:551 | `rstrip(')')` keeps a prefix, removes only `)` characters, and the result does not end in `)` |
| Strings.SplitPiecesFree | banking_app.py:92 | no piece of a split holds the separator |
| Strings.JoinSplit | banking_app.py:92 | joining the pieces of a split with the separator gives back the text |
| Strings.SplitWithoutSeparator | banking_app.py:92 | a text without the separator splits into itself alone |
| Strings.SplitConcat | banking_app.py:92 | splitting two texts joined by the separator splits each side independently |
| Strings.SplitJoin | banking_app.py:92 | splitting a join of separator-free pieces gives back the pieces |
| Strings.IntToString | banking_app.py:211 | `str(n)` is non-empty, starts with `-` exactly for negative `n` and ends in a digit (partner: `ParseIntOfIntToString`) |
| Strings.ParseInt | banking_app.py:198 | `int()` of a text: the whitespace it skips removed, then `ParseSigned` (partners: the `ParseInt…` lemmas below) |
| Strings.ParseSigned | banking_app.py:198 | an optional sign and a digit body of at most 4300 digits, underscores allowed between digits (partners: `ParseIntOfDigits`, `ParseIntRefusesTooManyDigits`) |
| Strings.IntStrip | banking_app.py:198 | the text `int()` reads is no longer than the input (partners: the two lemmas below) |
| Strings.IntStripKeepsInnerChar | banking_app.py:198 | a character `int()` does not skip survives the skipping of surrounding whitespace |
| Strings.IntStripUnchanged | banking_app.py:198 | a text whose ends `int()` does not skip is read as it stands |
| Strings.ParseIntRefusesSeparatorControl | banking_app.py:198 | `int()` refuses digits preceded by one of U+001C-U+001F, which `str.isspace` counts as whitespace but `int()` does not skip |
| Strings.NatToStringValue | banking_app.py:211 | the digits `str(n)` writes denote `n` |
| Strings.ParseIntOfDigits | banking_app.py:198 | `int()` of a digit string of at most 4300 digits is its value |
| Strings.ParseIntOfNegativeDigits | banking_app.py:198 | `int()` of a minus sign and at most 4300 digits is the negated value |
| Strings.ParseIntOfIntToString | banking_app.py:198-211 | `int(str(n)) == n` for every integer `str()` can write, that is of at most 4300 digits |
| Strings.ParseIntRefusesTooManyDigits | banking_app.py:198 | `int()` refuses a digit string of more than 4300 digits, signed or not |
| Strings.ParseIntWithinStrLimit | banking_app.py:198-211 | every number `int()` reads has at most 4300 digits, so `str()` writes it back without error |
| BankingApp.ExecuteQuery | banking_app.py:31-52 | `None` exactly when the driver raises, and then exactly one line "Error executing query: " followed by the driver's message is printed and nothing otherwise; rows exactly for a fetching query that completes; a commit exactly for a non-fetching query that completes, which returns the row count |
| BankingApp.Columns | banking_app.py:61 | the headers are the first row's column names, in order |
| BankingApp.Lookup | banking_app.py:64 | a column lookup finds a value of that column, and fails exactly when the row has no such column |
| BankingApp.Line | banking_app.py:64 | one row's values in header order: missing exactly when the row lacks a header, otherwise each value is the row's value for that header |
| BankingApp.Cells | banking_app.py:64 | the table data is missing exactly when some row lacks a header column; otherwise each cell is that row's value for that header |
| BankingApp.DisplayResults | banking_app.py:54-68 | "No results found." exactly for `None` or no rows; a KeyError exactly when a row lacks one of the first row's columns; otherwise the headers are the first row's columns and every row becomes one line of values in that order |
| BankingApp.LookupDistinct | banking_app.py:61-64 | with distinct column names, looking up the j-th column gives the j-th value |
| BankingApp.UniformRowsDisplayed | banking_app.py:54-68 | rows that all have the first row's columns are shown as a table whose first line is the first row's values |
| BankingApp.ErrorDisplaysAsEmpty | banking_app.py:46-58 | `display_results` shows a failed query and an empty result alike, "No results found.", while only the failed one has printed the error line |
| BankingApp.NonBlank | banking_app.py:97 | keeps only non-blank texts taken from its input, never more of them |
| BankingApp.Statements | banking_app.py:96-97 | each piece stripped and blank ones dropped, in order (partners: `StatementsClean`, `StatementsConcat`) |
| BankingApp.ScriptStatements | banking_app.py:92-97 | the statements of the script cut at `;` (partners: `ScriptStatementsClean`, `ScriptOfStatements`) |
| BankingApp.Accepted | banking_app.py:98-102 | the committed statements are ones that were tried, never more of them than were tried |
| BankingApp.AcceptedWereAllowed | banking_app.py:98-102 | each committed statement was tried at some position where the driver, given the statements before it, did not raise |
| BankingApp.AcceptedAllWhenNoneRejected | banking_app.py:98-102 | when the driver raises on nothing, every statement is committed, in order |
| BankingApp.RepeatedStatementCommittedOnce | banking_app.py:98-102 | a statement repeated in the script, which the driver refuses the second time, is committed once |
| BankingApp.ExecuteScript | banking_app.py:92-102 | the statements tried are the non-blank stripped pieces of the script in order, and those committed are the ones on which the driver, given the statements tried before, does not raise, in order |
| BankingApp.StatementsConcat | banking_app.py:92-97 | the statements of two lists of pieces are the statements of each, concatenated |
| BankingApp.StatementsClean | banking_app.py:92-97 | every statement is non-blank, holds no `;` and has no whitespace at its ends |
| BankingApp.ScriptStatementsClean | banking_app.py:92-97 | every statement cut from a script is non-blank, free of `;` and stripped |
| BankingApp.ScriptStatementsConcat | banking_app.py:92-97 | two scripts joined by `;` yield the statements of each, concatenated |
| BankingApp.ScriptOfStatements | banking_app.py:92-97 | a script written as clean statements joined by `;` is cut back into exactly those statements |
| BankingApp.InitializeDatabase | banking_app.py:70-110 | a failed count query crashes; tables present means nothing is done; an unreadable script ends the run; otherwise the script's statements are tried in order and those on which the driver does not raise, given the statements before, are committed |
| BankingApp.TransactionType | banking_app.py:225-231 | a type exactly for the choices 1, 2 and 3: 1 is Deposit, 2 Withdrawal and 3 Transfer |
| BankingApp.DateFields | banking_app.py:258 | the three fields, when found, rebuild the text around two `-` and the year field has four characters |
| BankingApp.DateFieldsOf | banking_app.py:258 | three `-`-free fields joined by `-` are found again |
| BankingApp.ParseIsoDate | banking_app.py:258-259 | an accepted date is a real calendar date, and it is read from fields that match `%Y`, `%m` and `%d` |
| BankingApp.ParseIsoDateOfFields | banking_app.py:258-259 | a text made of matching fields is accepted exactly when it names a real date |
| BankingApp.UnpaddedFieldsAccepted | banking_app.py:258-259 | one-digit months and days without a leading zero are accepted |
| BankingApp.February29OnlyInLeapYears | banking_app.py:258-259 | the 29th of February is accepted exactly in leap years from year 1 on |
| BankingApp.ParseFormatDate | banking_app.py:258-259 | every real date written `YYYY-MM-DD` is read back as itself |
| BankingApp.TransactionHistory | banking_app.py:163-282 | choice 1 runs the unfiltered query; choice 2 runs the account filter exactly when `int()`, 4300-digit limit included, accepts the id, else prints the account error; choice 3 runs the type filter for menu entries 1-3 with the type the menu names, else "Invalid choice."; choice 4 runs the date filter exactly when both dates parse, else the date error; any other choice is "Invalid choice." |
| BankingApp.AccountFilterAcceptsEveryId | banking_app.py:193-211 | every account id typed as `str(n)`, for an `n` `str()` can write, selects the transactions of account n |
| BankingApp.AccountFilterRefusesTooManyDigits | banking_app.py:193-213 | an account id of more than 4300 digits is refused with the account error |
| BankingApp.AccountFilterRefusesSeparatorControl | banking_app.py:193-200 | an account id typed as digits after one of U+001C-U+001F is refused with the account error |
| BankingApp.DateRangeKeepsTexts | banking_app.py:251-277 | any two real dates typed as `YYYY-MM-DD` are accepted and passed on as typed, even when the range runs backwards |

## Left out

- The Tkinter widgets, message boxes, the main menu (`create_main_menu`) and the one-minute `root.after` timer. The model keeps only the state changes and outcomes of the handlers.
- SQL text and MySQL behaviour. The `User` table is a map keyed by exact user name, so MySQL's case-insensitive collation and its trailing-space comparison in the username lookup are not modelled. Per-statement driver errors during initialisation are the `rejects` parameter.
- SHA-256 itself. `HashPassword` applies a digest function given as a parameter to the password followed by the salt, and injectivity is assumed only where a lemma requires it.
- JWT `generate_token` and `verify_token`: third-party signing code that no modelled path calls.
- `datetime.now()` is the `now` parameter, in whole seconds. Sub-second time differences are not modelled.
- `float()` is the `parseFloat` parameter. Floating-point balances are `real`.
- Loading configuration from the environment, and `sys.exit`. The constants 1800 s, 3 attempts and 8 characters are taken from `APP_CONFIG` (config.py:27-29), and a fatal exit is an outcome value.
- `tabulate` formatting, `clear_screen`, the console menu loop and the other `view_*` queries, which run fixed SQL with no logic of their own.
- Security.CheckPassword: the digit rule `\d` also accepts non-ASCII decimal digits such as `٣`; the model counts ASCII digits only.
- Security.ValidatePhone: `\d{9,15}` also matches non-ASCII decimal digits; the model accepts ASCII digits only.
- BankingApp.ParseIsoDate: `strptime` reads `%Y` as `\d\d\d\d` and the second digit of `%d` as `\d`, both of which also match non-ASCII decimal digits, so `"٢٠٢٤-01-01"` is a date to Python; the model accepts ASCII digits only.
- Strings.ParseInt: `int()` also accepts non-ASCII decimal digits. The model accepts an optional sign and at most 4300 ASCII digits with single underscores between them, surrounded by the whitespace `int()` skips (`isspace` characters other than U+001C-U+001F).
- BankingGui.BankingSystemGui.Login: the `except Exception` branch (banking_gui.py:156-157), which shows "Login failed: …" when something other than a driver error escapes, is not an outcome of the model; a driver error inside `verify_credentials` is a failed verification.
- Deleting and editing accounts, the loan and insurance dialogs, and the statistics view: dialogs that pass their fields straight to SQL.
- `cursor.lastrowid` and the second `AccountType` insert of `add_account`. `SaveNewAccount` stops at the values that would be inserted.
- Strings.IntToString: writes the digits of every integer, where Python's `str(n)` raises `ValueError` past 4300 digits. The combo entry (banking_gui.py:530) formats customer ids from the database, and the account title (banking_app.py:211) formats a number `int()` has just read, which `ParseIntWithinStrLimit` shows is always writable; the round-trip lemmas require `WithinStrLimit`.
- BankingApp.DisplayResults: a row is a list of (column, value) pairs and may repeat a column, which a dictionary row cannot. `Lookup` takes the first pair, so on rows with distinct columns, as every row of a dictionary cursor has, it agrees with dictionary lookup (`LookupDistinct`).
- BankingGui.SaveNewAccount: uses the parse as written (`ParseCustomerId`), so it inherits the defect listed under Findings. The corrected `ParseCustomerIdLast` is proved separately.

## Findings

| source | as written | input that shows it | evidently intended | confidence | as-written member | corrected member |
|---|---|---|---|---|---|---|
| banking_gui.py:551 | the id is read from the piece between the first and the second `(` of the combo entry | a customer named "Smith (Jr)" with id 5 is listed as "Smith (Jr) (5)"; the piece read is "Jr) ", which `int()` refuses with a ValueError, so no account can be opened for them by choosing the listed entry | read the id after the last `(`, which the entry format `"<name> (<id>)"` always supplies | medium, not executed | BankingGui.ParenthesisedNameUnparsable | BankingGui.ComboEntryRoundTripLast |
