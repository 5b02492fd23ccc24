/**
 * The socket server of bank_server.py as it runs: a server object holding
 * the shared user database, and the session state of the connection it is
 * serving. Each method updates the fields in place, as `handle_client` and
 * `log_transaction` update `user_db`, and is proved to do exactly what the
 * reference functions of module ServerSpec say.
 */
module BankServer {
  import opened Maybe
  import opened Text
  import opened Crypto
  import opened LoginFormat
  import opened ServerSpec

  /** Where the connection being served is in the protocol. */
  datatype SessionState = Connected | Authenticated | Closed

  class Server {
    /** `user_db`, shared by every connection. */
    var users: UserDb
    /** The session state of the current connection. */
    var state: SessionState
    /** The terminal and the account the session was bound to at login. */
    var atmId: string
    var userId: string
    /** The replies sent on the current connection, in order. */
    var sent: seq<string>
    /** `atm_keys`, loaded once at start. */
    const atmKeys: AtmKeys
    /** The cryptographic primitives, with the bank's private key built in. */
    const crypto: Primitives

    /** An authenticated session is bound to an account of the store. */
    ghost predicate Valid()
      reads this
    {
      state == Authenticated ==> userId in users
    }

    /** A server with the initial user database and no connection yet. */
    constructor (atmKeys: AtmKeys, crypto: Primitives)
      requires BothSchemesLoaded(atmKeys)
      ensures users == InitialUsers && state == Closed && sent == []
      ensures this.atmKeys == atmKeys && this.crypto == crypto
      ensures Valid()
    {
      this.atmKeys := atmKeys;
      this.crypto := crypto;
      users := InitialUsers;
      state := Closed;
      atmId, userId := "", "";
      sent := [];
    }

    /** Sends one reply on the connection. */
    method Send(text: string)
      modifies this`sent
      ensures sent == old(sent) + [text]
    {
      sent := sent + [text];
    }

    /** `log_transaction`: appends one formatted entry to the user's history. */
    method LogTransaction(user: string, atm: string, ts: string, action: string)
      requires user in users
      modifies this`users
      ensures users == Logged(old(users), user, atm, ts, action)
    {
      var acct := users[user];
      users := users[user := acct.(history := acct.history + [Entry(ts, atm, user, action)])];
    }

    /** Steps 1 and 2 of `handle_client`: the login frame. */
    method ReceiveLogin(frame: Bytes)
      requires state == Connected
      modifies this`state, this`atmId, this`userId, this`sent
      ensures Valid()
      ensures var r := LoginStep(users, crypto, frame);
              && sent == old(sent) + AsSeq(r.reply)
              && state == (if r.creds.Some? then Authenticated else Closed)
              && (r.creds.Some? ==> atmId == r.creds.value.atmId && userId == r.creds.value.userId)
              && (r.creds.None? ==> atmId == old(atmId) && userId == old(userId))
    {
      var plain := crypto.decrypt(frame);
      if plain.None? {
        // the decryption raises; the catch-all handler closes the connection
        state := Closed;
        return;
      }
      var fields := Split(plain.value, ':');
      if |fields| != 3 {
        Send("Invalid login format");
        state := Closed;
        return;
      }
      var atm, user, password := fields[0], fields[1], fields[2];
      if user !in users || users[user].password != password {
        Send("Authentication failed");
        state := Closed;
        return;
      }
      Send("Authenticated");
      atmId, userId := atm, user;
      state := Authenticated;
    }

    /**
     * Steps 3 to 7 of `handle_client`: one (ciphertext, signature, tag)
     * triple, checked and dispatched.
     */
    method ProcessCommand(enc: Bytes, sig: Bytes, tagFrame: Bytes, ts: string)
      requires Valid() && state == Authenticated
      modifies this`users, this`state, this`sent
      ensures Valid()
      ensures var s := CommandStep(old(users), atmKeys, crypto, atmId, userId, ts, enc, sig, tagFrame);
              && users == s.db
              && sent == old(sent) + AsSeq(s.reply)
              && state == (if s.open then Authenticated else Closed)
    {
      if enc == [] || sig == [] {
        state := Closed;
        return;
      }
      var decrypted := crypto.decrypt(enc);
      if decrypted.None? {
        state := Closed;
        return;
      }
      var command := decrypted.value;
      var tag := crypto.decode(tagFrame);
      if tag.None? {
        state := Closed;
        return;
      }
      var scheme := SelectScheme(tag.value);
      if atmId !in atmKeys || scheme !in atmKeys[atmId] {
        // `atm_keys[atm_id][signature_type]` raises KeyError
        state := Closed;
        return;
      }
      var verified := crypto.verify(scheme, atmKeys[atmId][scheme], command, sig);
      if !verified {
        Send("ATM signature verification failed");
        state := Closed;
        return;
      }
      Execute(command, ts);
    }

    /** Step 7 of `handle_client`: runs one verified command. */
    method Execute(command: string, ts: string)
      requires Valid() && state == Authenticated
      modifies this`users, this`state, this`sent
      ensures Valid()
      ensures var r := Dispatch(old(users), userId, atmId, ts, command);
              && users == r.db
              && sent == old(sent) + [r.text]
              && state == (if r.Quit? then Closed else Authenticated)
    {
      // the branches match those of Dispatch; how the texts and entries are built is not needed
      hide AmountOf, HistoryText, IntToString, Logged, Entry;
      var response: string;
      if command == "balance" {
        response := "Balance: $" + IntToString(users[userId].balance);
        LogTransaction(userId, atmId, ts, "Checked balance");
      } else if StartsWith(command, "deposit") {
        response := Deposit(AmountOf(command), ts);
      } else if StartsWith(command, "withdraw") {
        response := Withdraw(AmountOf(command), ts);
      } else if command == "history" {
        response := HistoryText(users[userId].history);
      } else if command == "quit" {
        LogTransaction(userId, atmId, ts, "Session ended");
        Send("Session ended.");
        state := Closed;
        return;
      } else {
        response := "Unknown command";
      }
      Send(response);
    }

    /** The `deposit` branch, given the parsed amount or `None` where parsing raised. */
    method Deposit(amount: Option<int>, ts: string) returns (response: string)
      requires Valid() && state == Authenticated
      modifies this`users
      ensures Valid()
      ensures amount.None? ==> users == old(users) && response == "Invalid deposit amount"
      ensures amount.Some? ==>
                && response == "Deposited $" + IntToString(amount.value)
                && var acct := old(users)[userId];
                   users == Logged(old(users)[userId := acct.(balance := acct.balance + amount.value)],
                                   userId, atmId, ts, response)
    {
      if amount.Some? {
        var acct := users[userId];
        users := users[userId := acct.(balance := acct.balance + amount.value)];
        response := "Deposited $" + IntToString(amount.value);
        LogTransaction(userId, atmId, ts, response);
      } else {
        response := "Invalid deposit amount";
      }
    }

    /** The `withdraw` branch, given the parsed amount or `None` where parsing raised. */
    method Withdraw(amount: Option<int>, ts: string) returns (response: string)
      requires Valid() && state == Authenticated
      modifies this`users
      ensures Valid()
      ensures amount.None? ==> users == old(users) && response == "Invalid withdraw amount"
      ensures amount.Some? && old(users)[userId].balance < amount.value ==>
                users == old(users) && response == "Insufficient funds"
      ensures amount.Some? && old(users)[userId].balance >= amount.value ==>
                && response == "Withdrew $" + IntToString(amount.value)
                && var acct := old(users)[userId];
                   users == Logged(old(users)[userId := acct.(balance := acct.balance - amount.value)],
                                   userId, atmId, ts, response)
    {
      if amount.Some? {
        var acct := users[userId];
        if acct.balance >= amount.value {
          users := users[userId := acct.(balance := acct.balance - amount.value)];
          response := "Withdrew $" + IntToString(amount.value);
          LogTransaction(userId, atmId, ts, response);
        } else {
          response := "Insufficient funds";
        }
      } else {
        response := "Invalid withdraw amount";
      }
    }

    /**
     * One iteration of the loop of `handle_client`, on the triple starting at
     * frame `i`: afterwards the session either goes on from frame `i + 3`
     * towards the same final store and replies, or has ended with them.
     */
    method ServeCommand(frames: seq<Bytes>, now: nat -> string, i: nat)
      requires Valid() && state == Authenticated
      modifies this`users, this`state, this`sent
      ensures Valid() && (state == Authenticated || state == Closed)
      ensures state == Authenticated ==> i < |frames|
      ensures var whole := Loop(old(users), atmKeys, crypto, now, atmId, userId, frames, i);
              if state == Authenticated
              then && Loop(users, atmKeys, crypto, now, atmId, userId, frames, i + 3).db == whole.db
                   && sent + Loop(users, atmKeys, crypto, now, atmId, userId, frames, i + 3).replies
                        == old(sent) + whole.replies
              else users == whole.db && sent == old(sent) + whole.replies
    {
      // the unfolding lemma and the contract of ProcessCommand are all the proof needs
      hide Loop, CommandStep;
      LoopUnfolds(users, atmKeys, crypto, now, atmId, userId, frames, i);
      ProcessCommand(Recv(frames, i), Recv(frames, i + 1), Recv(frames, i + 2), now(i));
    }

    /**
     * `handle_client` for one connection that delivers `frames`: the login
     * frame, then triples of frames until the session ends. The command whose
     * ciphertext is frame `i` is logged at time `now(i)`.
     */
    method HandleClient(frames: seq<Bytes>, now: nat -> string)
      modifies this`users, this`state, this`atmId, this`userId, this`sent
      ensures state == Closed && Valid()
      ensures var r := ServerSpec.HandleClient(old(users), atmKeys, crypto, now, frames);
              users == r.db && sent == r.replies
    {
      // the proof goes through the contracts of the steps, not the bodies of the reference functions
      hide Loop, CommandStep, ServerSpec.HandleClient, LoginStep;
      ghost var r := ServerSpec.HandleClient(users, atmKeys, crypto, now, frames);
      SessionStartsWithLogin(users, atmKeys, crypto, now, frames);
      state, sent := Connected, [];
      ReceiveLogin(Recv(frames, 0));
      var i := 1;
      while state == Authenticated
        invariant Valid() && (state == Authenticated || state == Closed)
        invariant state == Authenticated ==> i <= |frames| + 2
        invariant state == Closed ==> users == r.db && sent == r.replies
        invariant state == Authenticated ==>
                    && Loop(users, atmKeys, crypto, now, atmId, userId, frames, i).db == r.db
                    && sent + Loop(users, atmKeys, crypto, now, atmId, userId, frames, i).replies == r.replies
        decreases if state == Authenticated then |frames| + 3 - i else 0
      {
        ServeCommand(frames, now, i);
        i := i + 3;
      }
    }
  }
}
