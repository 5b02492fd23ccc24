/**
 * A functional reference model of the socket server's per-connection
 * handler (bank_server.py, `handle_client` and `log_transaction`): the login
 * exchange, one iteration of the command loop, the command dispatch, and a
 * whole session over the frames one connection delivers. The imperative
 * server in module BankServer is proved to behave exactly like it.
 */
module ServerSpec {
  import opened Maybe
  import opened Text
  import opened Crypto
  import opened LoginFormat

  /** One entry of the in-memory user database. */
  datatype Account = Account(password: string, balance: int, history: seq<string>)

  type UserDb = map<string, Account>

  /** Per terminal, the public key it signs with under each scheme. */
  type AtmKeys = map<string, map<Scheme, PublicKey>>

  /** The shape of the keys loaded at start: every terminal has an RSA and a DSA key. */
  predicate BothSchemesLoaded(keys: AtmKeys)
  {
    forall atm :: atm in keys ==> Rsa in keys[atm] && Dsa in keys[atm]
  }

  /** The user database the server starts with. */
  const InitialUsers: UserDb := map[
    "124356" := Account("pass123", 1000, []),
    "654321" := Account("abc321", 2500, [])
  ]

  /**
   * What the `n`-th receive on the connection returns: the `n`-th frame, or
   * nothing once the peer has closed and the frames are used up.
   */
  function Recv(frames: seq<Bytes>, n: nat): Bytes
  {
    if n < |frames| then frames[n] else []
  }

  /** The message list a step sends: nothing, or its one reply. */
  function AsSeq(reply: Option<string>): seq<string>
  {
    if reply.Some? then [reply.value] else []
  }

  // ---------------------------------------------------------------------
  // The account store

  /** A history line as `log_transaction` formats it: stamped with its time, ending in the action. */
  function Entry(ts: string, atmId: string, userId: string, action: string): (e: string)
    ensures StartsWith(e, "[" + ts + "] ")
    ensures |action| <= |e| && e[|e| - |action|..] == action
  {
    "[" + ts + "] " + atmId + " " + userId + ": " + action
  }

  /**
   * `log_transaction`: one entry appended to the user's history; the
   * accounts, the balance and the password stay as they were.
   */
  function Logged(db: UserDb, userId: string, atmId: string, ts: string, action: string): (r: UserDb)
    requires userId in db
    ensures r.Keys == db.Keys
    ensures r[userId].password == db[userId].password && r[userId].balance == db[userId].balance
    ensures r[userId].history == db[userId].history + [Entry(ts, atmId, userId, action)]
  {
    db[userId := db[userId].(history := db[userId].history + [Entry(ts, atmId, userId, action)])]
  }

  /**
   * `after` is `before` with at most the account of `userId` changed, and
   * that one keeping its password and only gaining history entries.
   */
  ghost predicate OnlyTouches(before: UserDb, after: UserDb, userId: string)
  {
    && after.Keys == before.Keys
    && (forall u :: u in before && u != userId ==> after[u] == before[u])
    && (userId in before ==> && after[userId].password == before[userId].password
                             && before[userId].history <= after[userId].history)
  }

  /** Logging writes only the user's own account. */
  lemma LoggedKeepsOthers(db: UserDb, userId: string, atmId: string, ts: string, action: string)
    requires userId in db
    ensures forall u :: u in db && u != userId ==> Logged(db, userId, atmId, ts, action)[u] == db[u]
  {
  }

  /** The credential check of the login step. */
  predicate Authenticates(db: UserDb, cr: Credentials)
  {
    cr.userId in db && db[cr.userId].password == cr.password
  }

  // ---------------------------------------------------------------------
  // Scheme selection

  /**
   * The scheme named by the tag frame: DSA exactly when "dsa" occurs
   * somewhere in the lower-cased tag, RSA for every other tag.
   */
  function SelectScheme(tag: string): (r: Scheme)
    ensures r == Dsa <==> exists i :: OccursAt(Lower(tag), "dsa", i)
  {
    ContainsIffOccurs(Lower(tag), "dsa");
    if Contains(Lower(tag), "dsa") then Dsa else Rsa
  }

  /** Any tag with "dsa" in it, in any letter case, selects DSA. */
  lemma TagWithDsaSelectsDsa(before: string, name: string, after: string)
    requires Lower(name) == "dsa"
    ensures SelectScheme(before + name + after) == Dsa
  {
    LowerOfConcat(before + name, after);
    LowerOfConcat(before, name);
    var low := Lower(before + name + after);
    assert low[|before|..|before| + 3] == Lower(name);
    OccurrenceIsContained(low, "dsa", |before|);
  }

  /** A tag whose lower-cased form has no "dsa" anywhere selects RSA. */
  lemma TagWithoutDsaSelectsRsa(tag: string)
    requires forall i :: !OccursAt(Lower(tag), "dsa", i)
    ensures SelectScheme(tag) == Rsa
  {
    if Contains(Lower(tag), "dsa") {
      ContainedHasOccurrence(Lower(tag), "dsa");
    }
  }

  // ---------------------------------------------------------------------
  // Command dispatch

  /** The result of one dispatched command: keep going, or end after `text`. */
  datatype Reply = Continue(db: UserDb, text: string) | Quit(db: UserDb, text: string)

  /** `int(command.split()[1])`; `None` where the index or `int` raises. */
  function AmountOf(command: string): Option<int>
  {
    var words := Tokens(command);
    if |words| < 2 then None else ParseInt(words[1])
  }

  /**
   * The amount of `verb w rest` is what `int` reads from `w`, whatever
   * whitespace character separates it from the verb and whatever words
   * follow it.
   */
  lemma AmountOfSecondWord(verb: string, sp: char, w: string, rest: string)
    requires |verb| > 0 && NoSpace(verb) && IsSpace(sp)
    requires |w| > 0 && NoSpace(w)
    requires rest == [] || IsSpace(rest[0])
    ensures AmountOf(verb + [sp] + w + rest) == ParseInt(w)
  {
    var tail := [sp] + w + rest;
    assert verb + [sp] + w + rest == verb + tail;
    TokensOfWordThenBreak(verb, tail);
    assert tail[1..] == w + rest;
    TokensOfWordThenBreak(w, rest);
    assert Tokens(verb + tail)[1] == w;
  }

  /** The reply to `history`. */
  function HistoryText(h: seq<string>): (text: string)
    ensures h == [] ==> text == "Transaction History:\nNo transactions yet"
    ensures h != [] && h[0] != "" ==> text == "Transaction History:\n" + Join(h, '\n')
  {
    var joined := Join(h, '\n');
    "Transaction History:\n" + (if joined == "" then "No transactions yet" else joined)
  }

  /**
   * One authenticated command against the user's account. Every change of
   * balance comes with exactly one new history entry; nobody else's account
   * is touched.
   */
  function Dispatch(db: UserDb, userId: string, atmId: string, ts: string, command: string): (r: Reply)
    requires userId in db
    ensures r.db.Keys == db.Keys
    ensures forall u :: u in db && u != userId ==> r.db[u] == db[u]
    ensures r.db[userId].password == db[userId].password
    ensures r.Quit? <==> command == "quit"
    ensures db[userId].history <= r.db[userId].history
    ensures |r.db[userId].history| <= |db[userId].history| + 1
    ensures (r.db[userId].balance != db[userId].balance) ==> (|r.db[userId].history| == |db[userId].history| + 1)
  {
    var acct := db[userId];
    if command == "balance" then
      Continue(Logged(db, userId, atmId, ts, "Checked balance"), "Balance: $" + IntToString(acct.balance))
    else if StartsWith(command, "deposit") then
      match AmountOf(command)
      case None => Continue(db, "Invalid deposit amount")
      case Some(n) =>
        var text := "Deposited $" + IntToString(n);
        Continue(Logged(db[userId := acct.(balance := acct.balance + n)], userId, atmId, ts, text), text)
    else if StartsWith(command, "withdraw") then
      match AmountOf(command)
      case None => Continue(db, "Invalid withdraw amount")
      case Some(n) =>
        if acct.balance >= n then
          var text := "Withdrew $" + IntToString(n);
          Continue(Logged(db[userId := acct.(balance := acct.balance - n)], userId, atmId, ts, text), text)
        else Continue(db, "Insufficient funds")
    else if command == "history" then
      Continue(db, HistoryText(acct.history))
    else if command == "quit" then
      Quit(Logged(db, userId, atmId, ts, "Session ended"), "Session ended.")
    else
      Continue(db, "Unknown command")
  }

  /** `balance` replies with the balance, unchanged, and logs "Checked balance". */
  lemma BalanceIsLogged(db: UserDb, userId: string, atmId: string, ts: string)
    requires userId in db
    ensures var acct := db[userId];
            Dispatch(db, userId, atmId, ts, "balance")
              == Continue(db[userId := Account(acct.password, acct.balance,
                                               acct.history + [Entry(ts, atmId, userId, "Checked balance")])],
                          "Balance: $" + IntToString(acct.balance))
  {
  }

  /** `history` replies with the user's history and changes nothing. */
  lemma HistoryChangesNothing(db: UserDb, userId: string, atmId: string, ts: string)
    requires userId in db
    ensures Dispatch(db, userId, atmId, ts, "history") == Continue(db, HistoryText(db[userId].history))
  {
    assert !StartsWith("history", "deposit") && !StartsWith("history", "withdraw") by {
      assert "history"[0] != "deposit"[0] && "history"[0] != "withdraw"[0];
    }
  }

  /** `quit` logs "Session ended", replies "Session ended." and ends the session. */
  lemma QuitLogsAndEnds(db: UserDb, userId: string, atmId: string, ts: string)
    requires userId in db
    ensures var acct := db[userId];
            Dispatch(db, userId, atmId, ts, "quit")
              == Quit(db[userId := Account(acct.password, acct.balance,
                                           acct.history + [Entry(ts, atmId, userId, "Session ended")])],
                      "Session ended.")
  {
  }

  /** Any other command replies "Unknown command" and changes nothing. */
  lemma UnknownCommandChangesNothing(db: UserDb, userId: string, atmId: string, ts: string, command: string)
    requires userId in db
    requires command != "balance" && command != "history" && command != "quit"
    requires !StartsWith(command, "deposit") && !StartsWith(command, "withdraw")
    ensures Dispatch(db, userId, atmId, ts, command) == Continue(db, "Unknown command")
  {
  }

  /** The command a terminal sends for a verb and an amount: `verb N`. */
  function CommandText(verb: string, n: int): string
  {
    verb + " " + IntToString(n)
  }

  /** A lower-case word has no whitespace in it. */
  lemma LowerCaseWordHasNoSpace(w: string)
    requires forall i :: 0 <= i < |w| ==> 'a' <= w[i] <= 'z'
    ensures NoSpace(w)
  {
  }

  /** `verb N` starts with the verb and carries the amount N. */
  lemma CommandTextReads(verb: string, n: int)
    requires |verb| > 0 && NoSpace(verb)
    ensures var command := CommandText(verb, n);
            && StartsWith(command, verb) && command[0] == verb[0]
            && AmountOf(command) == Some(n)
  {
    var command := CommandText(verb, n);
    AmountOfSecondWord(verb, ' ', IntToString(n), []);
    assert verb + [' '] + IntToString(n) + [] == command;
    ParseIntOfIntToString(n);
    assert command[..|verb|] == verb;
  }

  /** `deposit N` takes the deposit branch with amount N. */
  lemma DepositCommandReadsAmount(n: int)
    ensures var command := CommandText("deposit", n);
            && command != "balance" && StartsWith(command, "deposit")
            && AmountOf(command) == Some(n)
  {
    LowerCaseWordHasNoSpace("deposit");
    CommandTextReads("deposit", n);
    var command := CommandText("deposit", n);
    assert command != "balance" by { assert command[0] != "balance"[0]; }
  }

  /** `withdraw N` takes the withdraw branch with amount N. */
  lemma WithdrawCommandReadsAmount(n: int)
    ensures var command := CommandText("withdraw", n);
            && command != "balance" && !StartsWith(command, "deposit")
            && StartsWith(command, "withdraw") && AmountOf(command) == Some(n)
  {
    LowerCaseWordHasNoSpace("withdraw");
    CommandTextReads("withdraw", n);
    var command := CommandText("withdraw", n);
    assert command != "balance" by { assert command[0] != "balance"[0]; }
    assert !StartsWith(command, "deposit") by { assert command[0] != "deposit"[0]; }
  }

  /**
   * Any command that starts with "deposit" and whose second word `int` reads
   * as N adds N and logs exactly one "Deposited $N" entry: "deposit 5",
   * "deposit +5", "deposit 005", "deposit 1_000 now" and "depositx 5" alike.
   */
  lemma DepositAddsAmount(db: UserDb, userId: string, atmId: string, ts: string, command: string, n: int)
    requires userId in db
    requires StartsWith(command, "deposit") && AmountOf(command) == Some(n)
    ensures var text := "Deposited $" + IntToString(n);
            var acct := db[userId];
            Dispatch(db, userId, atmId, ts, command)
              == Continue(db[userId := Account(acct.password, acct.balance + n,
                                               acct.history + [Entry(ts, atmId, userId, text)])], text)
  {
    assert command != "balance" by { assert command[0] == 'd'; }
    hide AmountOf, IntToString, Entry, HistoryText;
  }

  /**
   * Any command that starts with "withdraw" and whose second word `int` reads
   * as N takes N and logs one "Withdrew $N" entry when the balance covers it,
   * and otherwise answers "Insufficient funds" and changes nothing.
   */
  lemma WithdrawTakesAmountIfCovered(db: UserDb, userId: string, atmId: string, ts: string, command: string, n: int)
    requires userId in db
    requires StartsWith(command, "withdraw") && AmountOf(command) == Some(n)
    ensures var text := "Withdrew $" + IntToString(n);
            var acct := db[userId];
            Dispatch(db, userId, atmId, ts, command)
              == if acct.balance >= n
                 then Continue(db[userId := Account(acct.password, acct.balance - n,
                                                    acct.history + [Entry(ts, atmId, userId, text)])], text)
                 else Continue(db, "Insufficient funds")
  {
    assert command != "balance" && !StartsWith(command, "deposit") by { assert command[0] == 'w'; }
    hide AmountOf, IntToString, Entry, HistoryText;
  }

  /** The text a terminal sends, `deposit N`, adds N and logs one "Deposited $N" entry. */
  lemma DepositTextAddsAmount(db: UserDb, userId: string, atmId: string, ts: string, n: int)
    requires userId in db
    ensures var text := "Deposited $" + IntToString(n);
            var acct := db[userId];
            Dispatch(db, userId, atmId, ts, CommandText("deposit", n))
              == Continue(db[userId := Account(acct.password, acct.balance + n,
                                               acct.history + [Entry(ts, atmId, userId, text)])], text)
  {
    DepositCommandReadsAmount(n);
    DepositAddsAmount(db, userId, atmId, ts, CommandText("deposit", n), n);
  }

  /** The text a terminal sends, `withdraw N`, takes N when the balance covers it. */
  lemma WithdrawTextTakesAmountIfCovered(db: UserDb, userId: string, atmId: string, ts: string, n: int)
    requires userId in db
    ensures var text := "Withdrew $" + IntToString(n);
            var acct := db[userId];
            Dispatch(db, userId, atmId, ts, CommandText("withdraw", n))
              == if acct.balance >= n
                 then Continue(db[userId := Account(acct.password, acct.balance - n,
                                                    acct.history + [Entry(ts, atmId, userId, text)])], text)
                 else Continue(db, "Insufficient funds")
  {
    WithdrawCommandReadsAmount(n);
    WithdrawTakesAmountIfCovered(db, userId, atmId, ts, CommandText("withdraw", n), n);
  }

  /** A deposit or withdrawal whose amount is missing or unreadable changes nothing. */
  lemma UnreadableAmountChangesNothing(db: UserDb, userId: string, atmId: string, ts: string, command: string)
    requires userId in db
    requires StartsWith(command, "deposit") || StartsWith(command, "withdraw")
    requires AmountOf(command).None?
    ensures Dispatch(db, userId, atmId, ts, command)
              == Continue(db, if StartsWith(command, "deposit") then "Invalid deposit amount"
                              else "Invalid withdraw amount")
  {
  }

  /**
   * The balance of a solvent account goes below zero only through a deposit
   * of a negative amount, which `int` accepts and nothing rejects.
   */
  lemma OnlyNegativeDepositOverdraws(db: UserDb, userId: string, atmId: string, ts: string, command: string)
    requires userId in db && db[userId].balance >= 0
    requires Dispatch(db, userId, atmId, ts, command).db[userId].balance < 0
    ensures StartsWith(command, "deposit") && AmountOf(command).Some? && AmountOf(command).value < 0
  {
  }

  /**
   * A deposit of minus N, for N above the balance, is accepted and leaves
   * the account overdrawn (1000 and `deposit -2000` give -1000).
   */
  lemma NegativeDepositOverdraws(db: UserDb, userId: string, atmId: string, ts: string, n: int)
    requires userId in db && 0 <= db[userId].balance < n
    ensures Dispatch(db, userId, atmId, ts, CommandText("deposit", -n)).db[userId].balance
              == db[userId].balance - n < 0
  {
    DepositTextAddsAmount(db, userId, atmId, ts, -n);
  }

  /**
   * A deposit followed by a withdrawal of the same amount restores the
   * balance of a solvent account; the history keeps both entries.
   */
  lemma DepositThenWithdrawRestoresBalance(db: UserDb, userId: string, atmId: string, ts1: string, ts2: string, n: int)
    requires userId in db && db[userId].balance >= 0
    ensures var mid := Dispatch(db, userId, atmId, ts1, CommandText("deposit", n)).db;
            var end := Dispatch(mid, userId, atmId, ts2, CommandText("withdraw", n)).db;
            end[userId].balance == db[userId].balance
            && end[userId].history == db[userId].history
                 + [Entry(ts1, atmId, userId, "Deposited $" + IntToString(n)),
                    Entry(ts2, atmId, userId, "Withdrew $" + IntToString(n))]
  {
    DepositTextAddsAmount(db, userId, atmId, ts1, n);
    var mid := Dispatch(db, userId, atmId, ts1, CommandText("deposit", n)).db;
    WithdrawTextTakesAmountIfCovered(mid, userId, atmId, ts2, n);
  }

  /**
   * On an overdrawn account the same pair does not restore the balance: the
   * withdrawal is refused, so the deposit stays.
   */
  lemma OverdrawnDepositThenWithdrawKeepsDeposit(db: UserDb, userId: string, atmId: string, ts1: string, ts2: string, n: int)
    requires userId in db && db[userId].balance < 0
    ensures var mid := Dispatch(db, userId, atmId, ts1, CommandText("deposit", n)).db;
            var end := Dispatch(mid, userId, atmId, ts2, CommandText("withdraw", n));
            end == Continue(mid, "Insufficient funds") && end.db[userId].balance == db[userId].balance + n
  {
    DepositTextAddsAmount(db, userId, atmId, ts1, n);
    var mid := Dispatch(db, userId, atmId, ts1, CommandText("deposit", n)).db;
    WithdrawTextTakesAmountIfCovered(mid, userId, atmId, ts2, n);
  }

  // ---------------------------------------------------------------------
  // The login step

  /** What the login step sends, and the credentials it binds when it succeeds. */
  datatype LoginResult = LoginResult(reply: Option<string>, creds: Option<Credentials>)

  /**
   * The first frame: decrypt, split into three fields, check the password.
   * No signature is checked here, and the terminal id is not looked up.
   */
  function LoginStep(db: UserDb, c: Primitives, frame: Bytes): (r: LoginResult)
    ensures c.decrypt(frame).None? ==> r == LoginResult(None, None)
    ensures (c.decrypt(frame).Some? && CountChar(c.decrypt(frame).value, ':') != 2)
              ==> (r == LoginResult(Some("Invalid login format"), None))
    ensures r.creds.Some? ==> && r.reply == Some("Authenticated")
                              && Authenticates(db, r.creds.value)
                              && c.decrypt(frame) == Some(Render(r.creds.value))
    ensures r.creds.None? ==> r.reply != Some("Authenticated")
  {
    match c.decrypt(frame)
    case None => LoginResult(None, None)
    case Some(plain) =>
      match ParseCredentials(plain)
      case None => LoginResult(Some("Invalid login format"), None)
      case Some(cr) =>
        if Authenticates(db, cr) then LoginResult(Some("Authenticated"), Some(cr))
        else LoginResult(Some("Authentication failed"), None)
  }

  /**
   * A well-formed login plaintext authenticates exactly when the user exists
   * and the password matches; otherwise the reply is "Authentication failed",
   * the same for an unknown user and a wrong password.
   */
  lemma LoginChecksCredentials(db: UserDb, c: Primitives, frame: Bytes, cr: Credentials)
    requires ColonFree(cr) && c.decrypt(frame) == Some(Render(cr))
    ensures LoginStep(db, c, frame)
              == if cr.userId in db && db[cr.userId].password == cr.password
                 then LoginResult(Some("Authenticated"), Some(cr))
                 else LoginResult(Some("Authentication failed"), None)
  {
    ParseRendered(cr);
  }

  // ---------------------------------------------------------------------
  // One iteration of the command loop

  /** What one loop iteration did to the store, what it sent, and whether the loop goes on. */
  datatype Step = Step(db: UserDb, reply: Option<string>, open: bool)

  /**
   * The command of a (ciphertext, signature, tag) triple when it decrypts,
   * its tag decodes, the terminal has a key for the selected scheme and the
   * signature over the decrypted command checks out with that key.
   */
  function VerifiedCommand(keys: AtmKeys, c: Primitives, atmId: string, enc: Bytes, sig: Bytes, tagFrame: Bytes): (r: Option<string>)
    ensures (enc == [] || sig == [] || atmId !in keys || c.decode(tagFrame).None?) ==> r.None?
    ensures r.Some? ==> && c.decrypt(enc) == r
                        && var scheme := SelectScheme(c.decode(tagFrame).value);
                           scheme in keys[atmId] && c.verify(scheme, keys[atmId][scheme], r.value, sig)
    ensures (&& enc != [] && sig != [] && c.decrypt(enc).Some? && c.decode(tagFrame).Some? && atmId in keys
             && SelectScheme(c.decode(tagFrame).value) in keys[atmId]
             && c.verify(SelectScheme(c.decode(tagFrame).value), keys[atmId][SelectScheme(c.decode(tagFrame).value)],
                         c.decrypt(enc).value, sig))
              ==> (r == c.decrypt(enc))
  {
    if enc == [] || sig == [] || c.decrypt(enc).None? || c.decode(tagFrame).None? then None
    else
      var command := c.decrypt(enc).value;
      var scheme := SelectScheme(c.decode(tagFrame).value);
      if atmId in keys && scheme in keys[atmId] && c.verify(scheme, keys[atmId][scheme], command, sig)
      then Some(command)
      else None
  }

  /**
   * One iteration of the command loop, in the source's order: an empty
   * ciphertext or signature frame ends the session, then the command is
   * decrypted, the tag frame decoded, the scheme selected, the terminal's key
   * looked up and the signature checked, and only then is the command run.
   * A decryption or decoding failure or a missing key raises, and the
   * handler closes the connection without a reply.
   */
  function CommandStep(db: UserDb, keys: AtmKeys, c: Primitives, atmId: string, userId: string, ts: string,
                       enc: Bytes, sig: Bytes, tagFrame: Bytes): (s: Step)
    requires userId in db
    ensures s.db.Keys == db.Keys
    ensures s.open ==> enc != [] && s.reply.Some?
  {
    if enc == [] then Step(db, None, false)
    else if sig == [] then Step(db, None, false)
    else
      match c.decrypt(enc)
      case None => Step(db, None, false)
      case Some(command) =>
        match c.decode(tagFrame)
        case None => Step(db, None, false)
        case Some(tag) =>
          var scheme := SelectScheme(tag);
          if atmId !in keys || scheme !in keys[atmId] then Step(db, None, false)
          else if !c.verify(scheme, keys[atmId][scheme], command, sig) then
            Step(db, Some("ATM signature verification failed"), false)
          else
            match Dispatch(db, userId, atmId, ts, command)
            case Continue(db', text) => Step(db', Some(text), true)
            case Quit(db', text) => Step(db', Some(text), false)
  }

  /**
   * Only a command whose signature checks out is run: without one the store
   * is unchanged and the loop ends; with one, the step is the dispatch of
   * the command, and the loop goes on unless it was `quit`.
   */
  lemma OnlyVerifiedCommandsRun(db: UserDb, keys: AtmKeys, c: Primitives, atmId: string, userId: string, ts: string,
                                enc: Bytes, sig: Bytes, tagFrame: Bytes)
    requires userId in db
    ensures var s := CommandStep(db, keys, c, atmId, userId, ts, enc, sig, tagFrame);
            var v := VerifiedCommand(keys, c, atmId, enc, sig, tagFrame);
            && (v.None? ==> s.db == db && !s.open)
            && (v.Some? ==> var r := Dispatch(db, userId, atmId, ts, v.value);
                            s == Step(r.db, Some(r.text), r.Continue?))
  {
  }

  /**
   * One iteration touches only the session's account, keeps its password
   * and only appends to its history.
   */
  lemma CommandStepFrame(db: UserDb, keys: AtmKeys, c: Primitives, atmId: string, userId: string, ts: string,
                         enc: Bytes, sig: Bytes, tagFrame: Bytes)
    requires userId in db
    ensures OnlyTouches(db, CommandStep(db, keys, c, atmId, userId, ts, enc, sig, tagFrame).db, userId)
  {
  }

  /**
   * An empty frame, a command that does not decrypt, a tag that does not
   * decode and a terminal without a key for the selected scheme all end the
   * loop with no reply and no change: the exception closes the connection.
   */
  lemma FailedChecksCloseSilently(db: UserDb, keys: AtmKeys, c: Primitives, atmId: string, userId: string, ts: string,
                                  enc: Bytes, sig: Bytes, tagFrame: Bytes)
    requires userId in db
    requires || enc == [] || sig == [] || c.decrypt(enc).None? || c.decode(tagFrame).None?
             || atmId !in keys || SelectScheme(c.decode(tagFrame).value) !in keys[atmId]
    ensures CommandStep(db, keys, c, atmId, userId, ts, enc, sig, tagFrame) == Step(db, None, false)
  {
  }

  /**
   * A triple that decrypts, whose tag decodes and whose terminal has a key
   * for the selected scheme, but whose signature fails: the reply is "ATM
   * signature verification failed", the loop ends and the store is unchanged.
   */
  lemma BadSignatureEndsSession(db: UserDb, keys: AtmKeys, c: Primitives, atmId: string, userId: string, ts: string,
                                enc: Bytes, sig: Bytes, tagFrame: Bytes, command: string, tag: string)
    requires userId in db
    requires enc != [] && sig != []
    requires c.decrypt(enc) == Some(command) && c.decode(tagFrame) == Some(tag)
    requires atmId in keys && SelectScheme(tag) in keys[atmId]
    requires !c.verify(SelectScheme(tag), keys[atmId][SelectScheme(tag)], command, sig)
    ensures CommandStep(db, keys, c, atmId, userId, ts, enc, sig, tagFrame)
              == Step(db, Some("ATM signature verification failed"), false)
  {
  }

  // ---------------------------------------------------------------------
  // The whole session

  /** The store after a run of commands and the replies it sent. */
  datatype Transcript = Transcript(db: UserDb, replies: seq<string>)

  /**
   * The command loop from the `i`-th frame on: three frames per iteration,
   * until an iteration ends the session. `now(i)` is the time at which the
   * command starting at frame `i` is logged.
   */
  function Loop(db: UserDb, keys: AtmKeys, c: Primitives, now: nat -> string, atmId: string, userId: string,
                frames: seq<Bytes>, i: nat): (r: Transcript)
    requires userId in db
    ensures r.db.Keys == db.Keys
    decreases |frames| - i
  {
    var s := CommandStep(db, keys, c, atmId, userId, now(i), Recv(frames, i), Recv(frames, i + 1), Recv(frames, i + 2));
    if s.open then
      var rest := Loop(s.db, keys, c, now, atmId, userId, frames, i + 3);
      Transcript(rest.db, [s.reply.value] + rest.replies)
    else
      Transcript(s.db, AsSeq(s.reply))
  }

  /**
   * The whole loop touches only the session's account, keeps its password
   * and only appends to its history.
   */
  lemma {:induction false} LoopFrame(db: UserDb, keys: AtmKeys, c: Primitives, now: nat -> string, atmId: string,
                                     userId: string, frames: seq<Bytes>, i: nat)
    requires userId in db
    ensures OnlyTouches(db, Loop(db, keys, c, now, atmId, userId, frames, i).db, userId)
    decreases |frames| - i
  {
    // only the frame of one step is needed, not how the step is computed
    hide CommandStep;
    var s := CommandStep(db, keys, c, atmId, userId, now(i), Recv(frames, i), Recv(frames, i + 1), Recv(frames, i + 2));
    CommandStepFrame(db, keys, c, atmId, userId, now(i), Recv(frames, i), Recv(frames, i + 1), Recv(frames, i + 2));
    if s.open {
      LoopFrame(s.db, keys, c, now, atmId, userId, frames, i + 3);
    }
  }

  /** A terminal without keys gets no command run: the loop ends at once, silently. */
  lemma LoopWithoutKeysDoesNothing(db: UserDb, keys: AtmKeys, c: Primitives, now: nat -> string, atmId: string,
                                   userId: string, frames: seq<Bytes>, i: nat)
    requires userId in db && atmId !in keys
    ensures Loop(db, keys, c, now, atmId, userId, frames, i) == Transcript(db, [])
  {
  }

  /** One unfolding of the loop: the first iteration, then the rest. */
  lemma LoopUnfolds(db: UserDb, keys: AtmKeys, c: Primitives, now: nat -> string, atmId: string, userId: string,
                    frames: seq<Bytes>, i: nat)
    requires userId in db
    ensures var s := CommandStep(db, keys, c, atmId, userId, now(i), Recv(frames, i), Recv(frames, i + 1), Recv(frames, i + 2));
            && (s.open ==> i < |frames| && Loop(db, keys, c, now, atmId, userId, frames, i)
                             == Transcript(Loop(s.db, keys, c, now, atmId, userId, frames, i + 3).db,
                                           [s.reply.value] + Loop(s.db, keys, c, now, atmId, userId, frames, i + 3).replies))
            && (!s.open ==> Loop(db, keys, c, now, atmId, userId, frames, i) == Transcript(s.db, AsSeq(s.reply)))
  {
  }

  /** The store after one connection, what was sent on it, and the user it authenticated, if any. */
  datatype Session = Session(db: UserDb, replies: seq<string>, user: Option<string>)

  /**
   * `handle_client` over the frames one connection delivers: the login
   * frame, then the command loop. Without a successful login nothing
   * changes and at most one reply is sent; with one, "Authenticated" is
   * the first reply and only the authenticated user's account changes.
   */
  function HandleClient(db: UserDb, keys: AtmKeys, c: Primitives, now: nat -> string, frames: seq<Bytes>): (r: Session)
    ensures r.db.Keys == db.Keys
    ensures r.user.None? ==> r.db == db && |r.replies| <= 1
    ensures r.user.Some? <==> |r.replies| > 0 && r.replies[0] == "Authenticated"
    ensures r.user.Some? ==> r.user.value in db
  {
    var login := LoginStep(db, c, Recv(frames, 0));
    match login.creds
    case None => Session(db, AsSeq(login.reply), None)
    case Some(cr) =>
      var rest := Loop(db, keys, c, now, cr.atmId, cr.userId, frames, 1);
      Session(rest.db, ["Authenticated"] + rest.replies, Some(cr.userId))
  }

  /** How a session is made of its login step and, after a successful one, the command loop. */
  lemma SessionStartsWithLogin(db: UserDb, keys: AtmKeys, c: Primitives, now: nat -> string, frames: seq<Bytes>)
    ensures var login := LoginStep(db, c, Recv(frames, 0));
            var r := HandleClient(db, keys, c, now, frames);
            && (login.creds.None? ==> r.db == db && r.replies == AsSeq(login.reply))
            && (login.creds.Some? ==>
                  var cr := login.creds.value;
                  && cr.userId in db
                  && r.db == Loop(db, keys, c, now, cr.atmId, cr.userId, frames, 1).db
                  && r.replies == ["Authenticated"] + Loop(db, keys, c, now, cr.atmId, cr.userId, frames, 1).replies)
  {
  }

  /**
   * A session changes only the account it authenticated: the other accounts
   * are untouched, the password is kept and the history only grows.
   */
  lemma SessionTouchesOnlyItsUser(db: UserDb, keys: AtmKeys, c: Primitives, now: nat -> string, frames: seq<Bytes>)
    ensures var r := HandleClient(db, keys, c, now, frames);
            r.user.Some? ==> OnlyTouches(db, r.db, r.user.value)
  {
    var login := LoginStep(db, c, Recv(frames, 0));
    if login.creds.Some? {
      var cr := login.creds.value;
      LoopFrame(db, keys, c, now, cr.atmId, cr.userId, frames, 1);
    }
  }

  /**
   * A login naming a terminal without keys authenticates, but its first
   * command raises at the key lookup: nothing is dispatched and the only
   * reply is "Authenticated".
   */
  lemma UnknownTerminalRunsNoCommand(db: UserDb, keys: AtmKeys, c: Primitives, now: nat -> string, frames: seq<Bytes>)
    requires LoginStep(db, c, Recv(frames, 0)).creds.Some?
    requires LoginStep(db, c, Recv(frames, 0)).creds.value.atmId !in keys
    ensures HandleClient(db, keys, c, now, frames).db == db
    ensures HandleClient(db, keys, c, now, frames).replies == ["Authenticated"]
  {
    var cr := LoginStep(db, c, Recv(frames, 0)).creds.value;
    LoopWithoutKeysDoesNothing(db, keys, c, now, cr.atmId, cr.userId, frames, 1);
  }
}
