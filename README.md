# Bank server and bank API, modelled in Dafny

The repository is a toy ATM banking system with two server-side command
processors that share one shape: decrypt a login, check the credentials
against an account store, then run text commands that read or change a
per-account balance and history.

* **The socket server** (`bank_server.py`). `handle_client` serves one
  connection. It receives the encrypted login `atm:user:password` and checks
  the password against the in-memory `user_db`, then loops over triples of
  (encrypted command, signature, scheme tag). It decrypts each command,
  picks the signature scheme by a substring test on the tag, and verifies
  the terminal's signature. It then dispatches `balance`, `deposit N`,
  `withdraw N`, `history` or `quit`, or answers "Unknown command".
  `log_transaction` appends a timestamped entry to the user's history.
* **The HTTP API** (`bank_api.py`). `signup`, `login` and `action` read the
  users file, answer with a JSON status and message, and write the file
  back. `action` checks that the decrypted command equals the clear-text
  `command` field, verifies the signature (`rsa` or else DSA), and then runs
  a fixed-amount command: deposit 100, or withdraw 50 when the balance covers it.

Modules:

| module | file | contents |
|---|---|---|
| `Maybe` | `maybe.dfy` | the `Option` type for Python operations that raise |
| `Text` | `text.dfy` | the Python string operations the handlers use (`split(":")`, `split()`, `"\n".join`, `lower`, `in`, `startswith`, `int`, `str`) and their round trips |
| `Crypto` | `crypto.dfy` | the opaque cryptographic primitives: decryption, decoding and the signature check are given functions |
| `LoginFormat` | `login_format.dfy` | the `atm:user:password` login plaintext and its parse |
| `ServerSpec` | `server_spec.dfy` | a functional reference model of `handle_client`: login step, one loop iteration, dispatch, the whole loop and the whole session, with the lemmas about them |
| `BankServer` | `bank_server.dfy` | the server as a class that updates its user store, session state and sent replies in place, proved equal to `ServerSpec` |
| `BankApi` | `bank_api.dfy` | the three HTTP handlers as functions from the users file to the new users file and the reply, a run of requests as a fold, and the ledger invariants |

The socket connection is a sequence of received frames. Once the frames are
used up, every receive returns the empty frame, as `recv` does after the
peer has closed. The clock is a function `now` from the frame index of a
command to its timestamp string. An exception that the handler's outer
`try` catches closes the connection without a reply. Such exceptions are a
failed decryption, an undecodable tag, or a terminal without a key for the
selected scheme.

Some rules one would expect of a bank do not hold in the code, and the
model follows the code:

* **Balances can go negative in the socket server.**
  * A balance is meant never to go negative.
  * The socket server reads deposit amounts with `int` and checks no sign, so
    `deposit -2000` on a balance of 1000 leaves -1000
    (`NegativeDepositOverdraws`). This is the only way an account goes below
    zero (`OnlyNegativeDepositOverdraws`).
  * The HTTP API, with its fixed amounts, does keep every balance
    non-negative (`ReplayKeepsSolvent`).
* **The socket server checks no signature at login.** The login step only
  checks the password. The terminal id from the plaintext is first used at
  the key lookup of the first command.
* **Some failures close the socket session without a reply.** A command that
  fails to decrypt, and a login that fails to decrypt, close the connection
  with no failure reply (`FailedChecksCloseSilently`, `LoginStep`).
* **The tamper check exists only in the HTTP API.** The socket server does
  not compare the decrypted command with anything.
* **The HTTP API keeps no session.** `action` does not require an earlier
  `login`: a correctly signed command runs on any existing `user_id`
  (`ActionNeedsNoLogin`).
* **A missing key file fails differently in `action`.** `action` loads the
  key without checking that the file exists, so a missing file ends in an
  internal server error rather than a JSON failure.

## Model

| member | source | states |
|---|---|---|
| `Text.Split` | bank_server.py:63 | `str.split(sep)` gives one more piece than there are separators, and no piece contains the separator |
| `Text.Join` | bank_server.py:127 | the joined text starts with the first piece |
| `Text.SplitThenJoin` | bank_server.py:63 | joining the pieces of a split with the same separator gives back the original text |
| `Text.SplitWithoutSeparator` | bank_server.py:63 | a text without the separator splits into itself alone |
| `Text.SplitAtFirstSeparator` | bank_server.py:63 | splitting at the first separator gives the part before it, followed by the pieces of the rest |
| `Text.JoinThenSplit` | bank_api.py:147 | separator-free pieces, joined and split again, come back unchanged |
| `Text.Word` | bank_server.py:109 | the first word of a text is a whitespace-free prefix that stops at whitespace or the end |
| `Text.Tokens` | bank_server.py:109 | `str.split()` gives only non-empty words without whitespace |
| `Text.WordOfWordThenBreak` | bank_server.py:109 | a word followed by whitespace or the end is read back as the first word |
| `Text.TokensOfWordThenBreak` | bank_server.py:109 | the words of such a text are that word followed by the words of the rest |
| `Text.TokensOfJoinedWords` | bank_server.py:109 | words joined with single spaces split back into the same words |
| `Text.Lower` | bank_server.py:90 | lowercasing leaves no capital letter, turns each capital into its small letter and keeps every other character |
| `Text.LowerOfConcat` | bank_server.py:90 | lowercasing distributes over concatenation |
| `Text.ContainsIffOccurs` | bank_server.py:90 | the substring test `in` is true exactly when there is an occurrence at some position |
| `Text.OccurrenceIsContained` | bank_server.py:90 | an occurrence at some position makes the substring test `in` true |
| `Text.ContainedHasOccurrence` | bank_server.py:90 | the substring test `in` is true only when there is an occurrence at some position |
| `Text.DigitChar` | bank_server.py:111 | each digit value has a digit character that reads back as that value |
| `Text.NatToString` | bank_server.py:111 | `str` of a natural number is a non-empty run of decimal digits, without a leading zero |
| `Text.IntToString` | bank_server.py:105 | `str` of an integer is non-empty, with no whitespace and no newline |
| `Text.DigitsValueOfNatToString` | bank_server.py:111 | the digits `str` prints read back as the number |
| `Text.ParseInt` | bank_server.py:109 | `int` refuses the empty text; what it accepts starts with a digit or a sign, continues with digits and underscores and ends in a digit, and only a leading minus sign gives a negative number |
| `Text.DigitsValueOfLeadingZero` | bank_server.py:109 | a leading zero adds nothing to the value of a run of digits |
| `Text.ParseIntOfDigitGroup` | bank_server.py:109 | `int` reads a digit group as its decimal value, the same after a plus sign or an extra leading zero ("+5", "05" and "5" all give 5), and as its negation after a minus sign |
| `Text.NatToStringIsDigitGroup` | bank_server.py:109 | what `str` prints for a natural number is a digit string `int` accepts |
| `Text.ParseIntOfIntToString` | bank_server.py:109 | `int(str(n)) == n` for every integer, negative ones included |
| `LoginFormat.ParseCredentials` | bank_server.py:62-66 | the three-way unpacking of `split(":")` succeeds exactly when the plaintext has two colons; the fields then carry no colon and rebuild the plaintext |
| `LoginFormat.ParseRendered` | bank_api.py:56 | colon-free credentials are read back unchanged from the plaintext a terminal builds |
| `ServerSpec.Entry` | bank_server.py:45-47 | a history entry is stamped with its time and ends with the action it records |
| `ServerSpec.Logged` | bank_server.py:45-50 | logging keeps the set of accounts and the user's balance and password, and appends exactly that entry to the user's history |
| `ServerSpec.LoggedKeepsOthers` | bank_server.py:50 | logging leaves every other account exactly as it was |
| `ServerSpec.SelectScheme` | bank_server.py:90 | the scheme is DSA exactly when "dsa" occurs somewhere in the lowercased tag, and RSA otherwise |
| `ServerSpec.TagWithDsaSelectsDsa` | bank_server.py:90 | any tag with "dsa" in it, in any letter case and anywhere, selects DSA |
| `ServerSpec.TagWithoutDsaSelectsRsa` | bank_server.py:90 | a tag whose lowercased form contains no "dsa" selects RSA |
| `ServerSpec.HistoryText` | bank_server.py:126-128 | an empty history answers "No transactions yet"; a history whose first entry is non-empty is joined by newlines; both after the "Transaction History:" header |
| `ServerSpec.Dispatch` | bank_server.py:103-137 | a command keeps the set of accounts and every other account, keeps the user's password, only appends to the history and at most one entry, logs every balance change, and ends the session exactly on `quit` |
| `ServerSpec.AmountOfSecondWord` | bank_server.py:109 | the amount of `verb w …` is what `int` reads from `w`, whatever whitespace character separates it from the verb and whatever words follow it |
| `ServerSpec.BalanceIsLogged` | bank_server.py:104-106 | `balance` replies "Balance: $b" with the balance unchanged and logs "Checked balance" |
| `ServerSpec.HistoryChangesNothing` | bank_server.py:126-128 | `history` replies with the rendered history and changes nothing |
| `ServerSpec.QuitLogsAndEnds` | bank_server.py:129-133 | `quit` logs "Session ended", replies "Session ended." and ends the session |
| `ServerSpec.UnknownCommandChangesNothing` | bank_server.py:134-135 | any other command replies "Unknown command" and changes nothing |
| `ServerSpec.CommandTextReads` | bank_server.py:107-109 | `verb N` starts with the verb, and its second word is read back as N |
| `ServerSpec.DepositCommandReadsAmount` | bank_server.py:107-109 | `deposit N` takes the deposit branch, with amount N |
| `ServerSpec.WithdrawCommandReadsAmount` | bank_server.py:115-117 | `withdraw N` takes the withdraw branch, with amount N |
| `ServerSpec.DepositAddsAmount` | bank_server.py:107-114 | any command starting with "deposit" whose second word `int` reads as N ("deposit 5", "deposit +5", "deposit 005 now", "depositx 5") adds N to the balance, appends exactly one entry ending in "Deposited $N", and replies that |
| `ServerSpec.DepositTextAddsAmount` | bank_server.py:107-114 | in particular the text a terminal sends, `deposit N`, adds N and logs "Deposited $N" |
| `ServerSpec.WithdrawTakesAmountIfCovered` | bank_server.py:115-125 | any command starting with "withdraw" whose second word `int` reads as N takes N and logs "Withdrew $N" when the balance is at least N; otherwise it replies "Insufficient funds" and changes nothing |
| `ServerSpec.WithdrawTextTakesAmountIfCovered` | bank_server.py:115-125 | in particular the text a terminal sends, `withdraw N`, behaves so |
| `ServerSpec.UnreadableAmountChangesNothing` | bank_server.py:107-125 | a deposit or withdrawal without a readable amount replies "Invalid deposit amount" or "Invalid withdraw amount" and changes nothing |
| `ServerSpec.OnlyNegativeDepositOverdraws` | bank_server.py:109-110 | a solvent account goes below zero only through a deposit of a negative amount |
| `ServerSpec.NegativeDepositOverdraws` | bank_server.py:109-110 | a deposit of minus N, for N above the balance, is accepted and overdraws the account |
| `ServerSpec.DepositThenWithdrawRestoresBalance` | bank_server.py:107-125 | for an account that is not overdrawn, a deposit and then a withdrawal of the same amount restore the balance and leave both entries in the history |
| `ServerSpec.OverdrawnDepositThenWithdrawKeepsDeposit` | bank_server.py:115-123 | for an overdrawn account the same withdrawal is refused with "Insufficient funds", so the balance ends N above where it started |
| `ServerSpec.LoginStep` | bank_server.py:58-73 | a login that fails to decrypt closes the session silently; a plaintext without exactly two colons gets "Invalid login format"; "Authenticated" is sent exactly when credentials are bound, and those credentials authenticate against the store and are what was decrypted |
| `ServerSpec.LoginChecksCredentials` | bank_server.py:68-73 | a well-formed login authenticates exactly when the user exists and the password matches; otherwise the reply is "Authentication failed", the same for both causes |
| `ServerSpec.VerifiedCommand` | bank_server.py:77-99 | a command is accepted exactly when the frames are non-empty, it decrypts, its tag decodes, the terminal has a key for the selected scheme and that key verifies the signature over it; the accepted command is the decrypted text |
| `ServerSpec.CommandStep` | bank_server.py:76-101 | one loop iteration keeps the set of accounts; it goes on only after a non-empty command frame, and only with a reply sent |
| `ServerSpec.OnlyVerifiedCommandsRun` | bank_server.py:86-103 | without a decrypted, decodable, signature-checked command the store is unchanged and the loop ends; with one, the iteration is the dispatch of that command |
| `ServerSpec.CommandStepFrame` | bank_server.py:103-137 | one iteration touches only the session's account, keeps its password and only appends to its history |
| `ServerSpec.FailedChecksCloseSilently` | bank_server.py:77-91 | an empty frame, a command that does not decrypt, a tag that does not decode or a terminal without a key for the selected scheme ends the session with no reply and no change |
| `ServerSpec.BadSignatureEndsSession` | bank_server.py:99-101 | a failed signature check replies "ATM signature verification failed", ends the loop and changes nothing |
| `ServerSpec.Loop` | bank_server.py:75-137 | the command loop keeps the set of accounts |
| `ServerSpec.LoopFrame` | bank_server.py:75-137 | the whole loop touches only the session's account, keeps its password and only appends to its history |
| `ServerSpec.LoopWithoutKeysDoesNothing` | bank_server.py:91 | a terminal without keys gets no command run: the loop ends at once, with no reply and no change |
| `ServerSpec.HandleClient` | bank_server.py:55-143 | a session keeps the set of accounts; without a login nothing changes and at most one reply is sent; a user is bound exactly when "Authenticated" is the first reply, and that user exists |
| `ServerSpec.SessionStartsWithLogin` | bank_server.py:68-75 | no command is dispatched before "Authenticated" is sent: a failed login is the whole session, and a successful one is followed by the command loop |
| `ServerSpec.SessionTouchesOnlyItsUser` | bank_server.py:55-143 | a session changes only the account it authenticated, keeping its password and only appending to its history |
| `ServerSpec.UnknownTerminalRunsNoCommand` | bank_server.py:91 | a login naming an unknown terminal authenticates, but no command is ever run and "Authenticated" is the only reply |
| `BankServer.Server.constructor` | bank_server.py:14-40 | the server starts with the two initial accounts and no connection, from terminal keys shaped as loaded at start (an RSA and a DSA key for every terminal) |
| `BankServer.Server.Send` | bank_server.py:137 | a reply is appended to what the connection has sent |
| `BankServer.Server.LogTransaction` | bank_server.py:45-50 | one formatted entry is appended to the user's history and nothing else changes |
| `BankServer.Server.ReceiveLogin` | bank_server.py:58-73 | the login frame sends and binds what the reference login step says, and authenticates the session exactly when credentials are bound; a failed login leaves the bound terminal and account as they were |
| `BankServer.Server.ProcessCommand` | bank_server.py:76-101 | one triple updates the store, the replies and the session state exactly as the reference loop iteration |
| `BankServer.Server.Execute` | bank_server.py:103-137 | a verified command updates the store and replies exactly as the reference dispatch, closing the session only on `quit` |
| `BankServer.Server.Deposit` | bank_server.py:107-114 | an unreadable amount changes nothing; a readable one adds the amount and logs "Deposited $N" |
| `BankServer.Server.Withdraw` | bank_server.py:115-125 | an unreadable amount changes nothing; an uncovered one replies "Insufficient funds" and changes nothing; a covered one takes the amount and logs "Withdrew $N" |
| `BankServer.Server.ServeCommand` | bank_server.py:75-137 | one iteration of the loop keeps the server on course to the reference loop's final store and replies |
| `BankServer.Server.HandleClient` | bank_server.py:55-143 | serving a connection ends closed, with exactly the store and the replies of the reference session |
| `BankApi.KeyPath` | bank_api.py:62 | a terminal's key file is looked up under `certs/`, in a file ending in `_public.pem` |
| `BankApi.ApiScheme` | bank_api.py:70-73 | the signature is checked as RSA exactly for the type `rsa`, and as DSA for every other type |
| `BankApi.SignedBy` | bank_api.py:62-77 | a signature counts only when the terminal's key file for that type exists and the check under the scheme the type names holds |
| `BankApi.Signup` | bank_api.py:27-43 | an existing id replies "User ID already exists" and changes nothing; a new id adds exactly one user with the password, balance 0 and no activity; no record is ever overwritten |
| `BankApi.Login` | bank_api.py:46-89 | a plaintext that fails to decrypt or to split into three fields replies "Decryption error"; "Login successful" only after the terminal's signature over the plaintext holds and the user's password matches |
| `BankApi.LoginChecksPassword` | bank_api.py:79-89 | for a signed, well-formed login the reply is "Login successful" exactly when the password matches, and "Invalid credentials" for both an unknown user and a wrong password |
| `BankApi.LoginChecksTerminalFirst` | bank_api.py:62-77 | a missing key file gives "ATM not registered", and a bad signature gives "Signature verification failed", before the users file is consulted |
| `BankApi.NetOfConcat` | bank_api.py:131-141 | the balance change recorded by two activity lists together is the sum of their changes |
| `BankApi.Lines` | bank_api.py:147 | one line per activity entry, in insertion order |
| `BankApi.RenderActivity` | bank_api.py:142-147 | "No recent activity" exactly for an empty list; a non-empty list gives a text with a `$` in it, so it is never taken for the empty one (its lines are read back by `ActivityLinesReadBack`) |
| `BankApi.LineHasNoNewline` | bank_api.py:147 | a line for an action without a newline has no newline in it |
| `BankApi.ActivityLinesReadBack` | bank_api.py:147 | the activity reply, split at its newlines, is the list of lines in insertion order |
| `BankApi.Perform` | bank_api.py:126-151 | a command keeps the password, appends at most one activity entry, and changes the balance by exactly what that entry records; only `deposit` and `withdraw` change anything; no balance goes negative; a withdrawal is refused exactly when the balance is below 50 |
| `BankApi.PerformMovesFixedAmounts` | bank_api.py:131-141 | `deposit` adds exactly 100 and records `{deposit, 100}` with "Deposited $100"; `withdraw` takes 50 and records `{withdraw, 50}` with "Withdrew $50" when the balance is at least 50, and otherwise replies "Insufficient balance" and changes nothing |
| `BankApi.PerformReadsOnly` | bank_api.py:129-151 | every other command leaves the record unchanged: `balance` replies "Balance: $b", `activity` the rendered activity list, `quit` "Session ended", and anything else "Unknown command" |
| `BankApi.PerformKeepsBalanceAccounted` | bank_api.py:131-141 | a balance equal to the sum of its activity stays so after any command |
| `BankApi.Action` | bank_api.py:93-154 | only the acting user's record can change, and every failure changes nothing; a ciphertext that does not decrypt gives "Decryption failed"; a decrypted text other than the command gives "Tampered command", whatever the key and signature; an internal error happens exactly for an untampered command without a key file; a bad signature gives "Signature invalid" and an unknown user "User not found"; success runs the command on the existing user |
| `BankApi.ActionNeedsNoLogin` | bank_api.py:93-124 | a signed, untampered command runs on any existing user without a login or a password |
| `BankApi.Handle` | bank_api.py:46-89 | a login request never changes the users file |
| `BankApi.Replay` | bank_api.py:27-154 | serving requests one at a time never removes a user |
| `BankApi.ReplayOfConcat` | bank_api.py:27-154 | serving two runs of requests one after the other is the same as serving them as one run |
| `BankApi.HandleKeepsSolvent` | bank_api.py:131-141 | one request never makes a balance negative |
| `BankApi.ReplayKeepsSolvent` | bank_api.py:131-141 | any run of requests from a users file without negative balances, seeded balances included, leaves none negative |
| `BankApi.HandleKeepsLedger` | bank_api.py:131-141 | one request keeps every balance non-negative and equal to the sum of its activity |
| `BankApi.ReplayKeepsLedger` | bank_api.py:131-141 | any run of requests from a solvent, accounted users file leaves it solvent and accounted |
| `BankApi.ReplayKeepsUsers` | bank_api.py:34-43 | no run of requests removes a user or changes a password |

## Left out

- The listening socket, `accept` loop and one thread per connection (bank_server.py:146-153). The model is one connection served on its own. Interleavings of concurrent sessions on the shared `user_db` are not expressible here.
- The cryptography: RSA-OAEP decryption, RSA-PSS and DSA signature checks, and PEM key loading (bank_server.py:27-40, utils/crypto_utils.py). They are the given functions of `Crypto.Primitives`, and the keys are a given map. `verify` raising an exception other than a failed signature is not modelled.
- `bank_server.py` imports `decrypt_message`, `verify_signature` and `verify_dsa_signature`, which utils/crypto_utils.py does not define. The model assumes they behave as their names say.
- The JSON users file: `load_users` and `save_users` (bank_api.py:16-24). The model passes the map in and out. Lost updates between concurrent requests are not captured.
- The missing-file check at bank_api.py:63 is membership in a given map of key files.
- Flask routing and request parsing. `bytes.fromhex` raising on bad hex, missing JSON fields, and `None` ids in `signup` are not modelled.
- BankApi.Signup: user ids are strings in the model. A JSON number sent as `user_id` is not found among the string keys (bank_api.py:34) and is stored under a number key (bank_api.py:37-41). `json.dump` then writes it beside the string key of the same digits, and the next load keeps the later one, so an existing account can be reset. The model's "no record is overwritten" holds for string ids only.
- The socket frames: the model assumes each `send` of the terminal arrives as exactly one `recv`. TCP may merge or split messages, and `recv(4096)` and `recv(1024)` cut longer ones; none of that is modelled.
- `user.get("activity", [])` (bank_api.py:143). A record without an `activity` field cannot occur in the model.
- `datetime.now` (bank_server.py:46). The timestamp is the parameter `now`.
- The log file append (bank_server.py:52-53) and every `print`. A failure of the file write inside the `try` of a deposit or withdrawal is not modelled. That failure would turn the reply into "Invalid … amount" after the balance had changed.
- `ServerSpec.CommandStep` and the other reference functions take any terminal key map. Only the server's constructor demands the shape loaded at start (`BothSchemesLoaded`), under which a registered terminal always has a key for the selected scheme, so their missing-scheme failure path has no counterpart in the running program.
- `Text.IsSpace` is Python's full whitespace set, but `Text.Lower` and `Text.ParseInt` cover ASCII only. Unicode case mapping and non-ASCII digits in `int` are not modelled, and neither is the surrounding whitespace `int` would strip (the amount is always a whitespace-free word).
- `Crypto.Primitives.decode`: UTF-8 decoding of the tag frame is a given function, including for the empty frame.
- The clients, the web UI and the key-generation scripts (atm_client.py, atm_web_ui.py, atm2.py, generate_dsa_keys.py, utils/generate_keys.py).
