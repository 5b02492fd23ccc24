/**
 * The HTTP API of bank_api.py: `signup`, `login` and `action`, each a pure
 * function from the stored users (what `load_users` returns) and the
 * request to the users `save_users` writes back and the JSON reply. A run
 * of requests is a fold over them, and the ledger invariants of the store
 * (no balance below zero, every balance accounted for by its activity list)
 * are proved to hold across any such run.
 */
module BankApi {
  import opened Maybe
  import opened Text
  import opened Crypto
  import opened LoginFormat

  /** One entry of a user's `activity` list. */
  datatype Activity = Activity(action: string, amount: int)

  /** One record of the users file. */
  datatype User = User(password: string, balance: int, activity: seq<Activity>)

  type Users = map<string, User>

  /** The public-key files present under `certs/`, by path, with the key each holds. */
  type KeyFiles = map<string, PublicKey>

  datatype Status = Ok | Fail

  /**
   * What a handler answers: a JSON body with a status and a message, or the
   * internal-server-error page of an exception nobody catches.
   */
  datatype Response = Json(status: Status, message: string) | ServerError

  /** The users file after a request, and the reply to it. */
  datatype Outcome = Outcome(users: Users, response: Response)

  /** A JSON reply with status `ok`. */
  predicate Succeeded(r: Response)
  {
    r.Json? && r.status == Ok
  }

  /** The three routes, with the request fields each one reads. */
  datatype Request =
    | SignupRequest(userId: string, password: string)
    | LoginRequest(atmId: string, encrypted: Bytes, signature: Bytes, sigType: string)
    | ActionRequest(atmId: string, userId: string, sigType: string, command: string,
                    encrypted: Bytes, signature: Bytes)

  // ---------------------------------------------------------------------
  // Keys

  /** Where the terminal's public key for a signature type is stored. */
  function KeyPath(atmId: string, sigType: string): (path: string)
    ensures StartsWith(path, "certs/")
    ensures |path| >= 11 && path[|path| - 11..] == "_public.pem"
  {
    "certs/" + atmId + "_" + sigType + "_public.pem"
  }

  /** `rsa` selects RSA; every other signature type is checked as DSA. */
  function ApiScheme(sigType: string): (scheme: Scheme)
    ensures scheme == Rsa <==> sigType == "rsa"
  {
    if sigType == "rsa" then Rsa else Dsa
  }

  /** The signature check of a route: the terminal's key file exists and the signature holds. */
  predicate SignedBy(files: KeyFiles, c: Primitives, atmId: string, sigType: string, message: string, sig: Bytes)
    ensures SignedBy(files, c, atmId, sigType, message, sig) ==> KeyPath(atmId, sigType) in files
  {
    KeyPath(atmId, sigType) in files
    && c.verify(ApiScheme(sigType), files[KeyPath(atmId, sigType)], message, sig)
  }

  // ---------------------------------------------------------------------
  // /api/signup

  /**
   * Creates the user with balance 0 and no activity, unless the id is taken.
   * An existing record is never overwritten.
   */
  function Signup(users: Users, userId: string, password: string): (o: Outcome)
    ensures o.users.Keys == users.Keys + {userId}
    ensures forall u :: u in users ==> o.users[u] == users[u]
    ensures o.response.Json? && (o.response.status == Ok <==> userId !in users)
    ensures userId in users ==> o.response.message == "User ID already exists"
    ensures userId !in users ==> o.users[userId] == User(password, 0, []) && o.response.message == "User created"
  {
    if userId in users then Outcome(users, Json(Fail, "User ID already exists"))
    else Outcome(users[userId := User(password, 0, [])], Json(Ok, "User created"))
  }

  // ---------------------------------------------------------------------
  // /api/login

  /**
   * Decrypts `atm:user:password`, checks the terminal's signature over the
   * plaintext, then the password. It changes nothing. The terminal field of
   * the plaintext is never looked at; the key comes from the request's
   * `atm_id`.
   */
  function Login(users: Users, files: KeyFiles, c: Primitives,
                 atmId: string, encrypted: Bytes, signature: Bytes, sigType: string): (r: Response)
    ensures r.Json?
    ensures (c.decrypt(encrypted).None? || CountChar(c.decrypt(encrypted).value, ':') != 2)
              ==> r == Json(Fail, "Decryption error")
    ensures r.status == Ok ==>
              && r.message == "Login successful"
              && c.decrypt(encrypted).Some?
              && SignedBy(files, c, atmId, sigType, c.decrypt(encrypted).value, signature)
              && ParseCredentials(c.decrypt(encrypted).value).Some?
              && var cr := ParseCredentials(c.decrypt(encrypted).value).value;
                 cr.userId in users && users[cr.userId].password == cr.password
  {
    match c.decrypt(encrypted)
    case None => Json(Fail, "Decryption error")
    case Some(plain) =>
      match ParseCredentials(plain)
      case None => Json(Fail, "Decryption error")
      case Some(cr) =>
        if KeyPath(atmId, sigType) !in files then Json(Fail, "ATM not registered")
        else if !SignedBy(files, c, atmId, sigType, plain, signature) then Json(Fail, "Signature verification failed")
        else if cr.userId !in users then Json(Fail, "Invalid credentials")
        else if users[cr.userId].password != cr.password then Json(Fail, "Invalid credentials")
        else Json(Ok, "Login successful")
  }

  /**
   * For a signed, well-formed plaintext the login succeeds exactly when the
   * user exists and the password matches, and otherwise the reply is the
   * same "Invalid credentials" for an unknown user and for a wrong password.
   */
  lemma LoginChecksPassword(users: Users, files: KeyFiles, c: Primitives, atmId: string,
                            encrypted: Bytes, signature: Bytes, sigType: string, cr: Credentials)
    requires ColonFree(cr) && c.decrypt(encrypted) == Some(Render(cr))
    requires SignedBy(files, c, atmId, sigType, Render(cr), signature)
    ensures Login(users, files, c, atmId, encrypted, signature, sigType)
              == if cr.userId in users && users[cr.userId].password == cr.password
                 then Json(Ok, "Login successful")
                 else Json(Fail, "Invalid credentials")
  {
    ParseRendered(cr);
  }

  /**
   * The checks run in the source's order: a well-formed plaintext for a
   * terminal without a key file is refused as "ATM not registered" whatever
   * the credentials, and one with a bad signature as "Signature
   * verification failed".
   */
  lemma LoginChecksTerminalFirst(users: Users, files: KeyFiles, c: Primitives, atmId: string,
                                 encrypted: Bytes, signature: Bytes, sigType: string, cr: Credentials)
    requires ColonFree(cr) && c.decrypt(encrypted) == Some(Render(cr))
    ensures (KeyPath(atmId, sigType) !in files)
              ==> (Login(users, files, c, atmId, encrypted, signature, sigType) == Json(Fail, "ATM not registered"))
    ensures (KeyPath(atmId, sigType) in files && !SignedBy(files, c, atmId, sigType, Render(cr), signature))
              ==> (Login(users, files, c, atmId, encrypted, signature, sigType)
                     == Json(Fail, "Signature verification failed"))
  {
    ParseRendered(cr);
  }

  // ---------------------------------------------------------------------
  // /api/action

  /** The balance change an activity entry records. */
  function Effect(a: Activity): int
  {
    if a.action == "deposit" then a.amount
    else if a.action == "withdraw" then -a.amount
    else 0
  }

  /** The balance change a list of activity entries records. */
  function Net(acts: seq<Activity>): int
    decreases |acts|
  {
    if acts == [] then 0 else Net(acts[..|acts| - 1]) + Effect(acts[|acts| - 1])
  }

  lemma {:induction false} NetOfConcat(a: seq<Activity>, b: seq<Activity>)
    ensures Net(a + b) == Net(a) + Net(b)
    decreases |b|
  {
    if b != [] {
      var b' := b[..|b| - 1];
      NetOfConcat(a, b');
      assert (a + b)[..|a + b| - 1] == a + b';
      assert (a + b)[|a + b| - 1] == b[|b| - 1];
    } else {
      assert a + b == a;
    }
  }

  /** One line of the activity reply. */
  function Line(a: Activity): string
  {
    a.action + ": $" + IntToString(a.amount)
  }

  function Lines(acts: seq<Activity>): (lines: seq<string>)
    ensures |lines| == |acts|
    ensures forall k :: 0 <= k < |acts| ==> lines[k] == Line(acts[k])
    decreases |acts|
  {
    if acts == [] then []
    else
      var rest := Lines(acts[1..]);
      assert forall k :: 1 <= k < |acts| ==> rest[k - 1] == Line(acts[k]);
      [Line(acts[0])] + rest
  }

  /**
   * The reply to `activity`: one line per entry, or "No recent activity"
   * for an empty list. Every line carries a `$`, so a non-empty list is
   * never mistaken for the empty one.
   */
  function RenderActivity(acts: seq<Activity>): (text: string)
    ensures acts == [] <==> text == "No recent activity"
    ensures acts != [] ==> '$' in text
  {
    if acts == [] then "No recent activity"
    else
      JoinedLinesHaveDollar(acts);
      Join(Lines(acts), '\n')
  }

  /** The joined lines of a non-empty list carry the `$` of the first line. */
  lemma JoinedLinesHaveDollar(acts: seq<Activity>)
    requires acts != []
    ensures '$' in Join(Lines(acts), '\n') && Join(Lines(acts), '\n') != "No recent activity"
  {
    assert '$' !in "No recent activity";
    var first := Line(acts[0]);
    var dollar := |acts[0].action| + 2;
    assert first[dollar] == '$';
    var joined := Join(Lines(acts), '\n');
    hide Line, Lines;
    assert joined[..|first|] == first;
    assert joined[dollar] == '$';
  }

  lemma LineHasNoNewline(a: Activity)
    requires '\n' !in a.action
    ensures '\n' !in Line(a)
  {
    var n := IntToString(a.amount);
    assert '\n' !in n;
    assert '\n' !in ": $";
    assert Line(a) == a.action + ": $" + n;
  }

  /** Split at the newlines, the activity reply gives back one line per entry. */
  lemma ActivityLinesReadBack(acts: seq<Activity>)
    requires acts != []
    requires forall k :: 0 <= k < |acts| ==> '\n' !in acts[k].action
    ensures Split(RenderActivity(acts), '\n') == Lines(acts)
  {
    var lines := Lines(acts);
    forall k | 0 <= k < |lines|
      ensures '\n' !in lines[k]
    {
      LineHasNoNewline(acts[k]);
    }
    JoinThenSplit(lines, '\n');
  }

  /** A user record after a command, and the message of the reply. */
  datatype Performed = Performed(user: User, message: string)

  /**
   * The command dispatch of `action`, on the record of the acting user. Only
   * the exact words `deposit` and `withdraw` move money, by the fixed amounts
   * 100 and 50, and each move is recorded by exactly one activity entry.
   */
  function Perform(user: User, command: string): (p: Performed)
    ensures p.user.password == user.password
    ensures user.activity <= p.user.activity && |p.user.activity| <= |user.activity| + 1
    ensures p.user.balance == user.balance + Net(p.user.activity[|user.activity|..])
    ensures p.user != user ==> command == "deposit" || command == "withdraw"
    ensures user.balance >= 0 ==> p.user.balance >= 0
    ensures command == "withdraw" ==> (p.user == user <==> user.balance < 50)
  {
    if command == "balance" then
      Performed(user, "Balance: $" + IntToString(user.balance))
    else if command == "deposit" then
      var entry := Activity("deposit", 100);
      assert (user.activity + [entry])[|user.activity|..] == [entry];
      Performed(user.(balance := user.balance + 100, activity := user.activity + [entry]), "Deposited $100")
    else if command == "withdraw" then
      if user.balance >= 50 then
        var entry := Activity("withdraw", 50);
        assert (user.activity + [entry])[|user.activity|..] == [entry];
        Performed(user.(balance := user.balance - 50, activity := user.activity + [entry]), "Withdrew $50")
      else
        Performed(user, "Insufficient balance")
    else if command == "activity" then
      Performed(user, RenderActivity(user.activity))
    else if command == "quit" then
      Performed(user, "Session ended")
    else
      Performed(user, "Unknown command")
  }

  /**
   * The fixed amounts: `deposit` adds 100 and records it; `withdraw` takes 50
   * and records it when the balance covers it, and otherwise replies
   * "Insufficient balance" and changes nothing.
   */
  lemma PerformMovesFixedAmounts(user: User)
    ensures Perform(user, "deposit")
              == Performed(User(user.password, user.balance + 100, user.activity + [Activity("deposit", 100)]),
                           "Deposited $100")
    ensures Perform(user, "withdraw")
              == if user.balance >= 50
                 then Performed(User(user.password, user.balance - 50, user.activity + [Activity("withdraw", 50)]),
                                "Withdrew $50")
                 else Performed(user, "Insufficient balance")
  {
  }

  /**
   * Every other command leaves the record as it is: `balance` replies with
   * the balance, `activity` with the rendered activity list, `quit` with
   * "Session ended", and anything else with "Unknown command".
   */
  lemma PerformReadsOnly(user: User, command: string)
    requires command != "deposit" && command != "withdraw"
    ensures Perform(user, command).user == user
    ensures Perform(user, command).message
              == if command == "balance" then "Balance: $" + IntToString(user.balance)
                 else if command == "activity" then RenderActivity(user.activity)
                 else if command == "quit" then "Session ended"
                 else "Unknown command"
  {
  }

  /** A record whose balance is the sum of its activity stays so after any command. */
  lemma PerformKeepsBalanceAccounted(user: User, command: string)
    requires user.balance == Net(user.activity)
    ensures var p := Perform(user, command);
            p.user.balance == Net(p.user.activity)
  {
    var after := Perform(user, command).user.activity;
    NetOfConcat(user.activity, after[|user.activity|..]);
    assert user.activity + after[|user.activity|..] == after;
  }

  /**
   * Decrypts the command and compares it with the plain `command` field,
   * checks the terminal's signature, then runs the command on the record of
   * `user_id` and saves. A missing key file makes `load_public_key` raise,
   * which nothing catches.
   */
  function Action(users: Users, files: KeyFiles, c: Primitives, atmId: string, userId: string,
                  sigType: string, command: string, encrypted: Bytes, signature: Bytes): (o: Outcome)
    ensures o.users.Keys == users.Keys
    ensures forall u :: u in users && u != userId ==> o.users[u] == users[u]
    ensures (o.response.ServerError?)
              <==> (c.decrypt(encrypted) == Some(command) && KeyPath(atmId, sigType) !in files)
    ensures !Succeeded(o.response) ==> o.users == users
    ensures c.decrypt(encrypted).None? ==> o == Outcome(users, Json(Fail, "Decryption failed"))
    ensures (c.decrypt(encrypted).Some? && c.decrypt(encrypted).value != command)
              ==> (o == Outcome(users, Json(Fail, "Tampered command")))
    ensures (c.decrypt(encrypted) == Some(command) && KeyPath(atmId, sigType) in files
             && !SignedBy(files, c, atmId, sigType, command, signature))
              ==> (o == Outcome(users, Json(Fail, "Signature invalid")))
    ensures (c.decrypt(encrypted) == Some(command) && SignedBy(files, c, atmId, sigType, command, signature)
             && userId !in users)
              ==> (o == Outcome(users, Json(Fail, "User not found")))
    ensures Succeeded(o.response) ==>
              && c.decrypt(encrypted) == Some(command)
              && SignedBy(files, c, atmId, sigType, command, signature)
              && userId in users
              && var p := Perform(users[userId], command);
                 o.users == users[userId := p.user] && o.response.message == p.message
  {
    match c.decrypt(encrypted)
    case None => Outcome(users, Json(Fail, "Decryption failed"))
    case Some(decrypted) =>
      if decrypted != command then Outcome(users, Json(Fail, "Tampered command"))
      else if KeyPath(atmId, sigType) !in files then Outcome(users, ServerError)
      else if !SignedBy(files, c, atmId, sigType, decrypted, signature) then Outcome(users, Json(Fail, "Signature invalid"))
      else if userId !in users then Outcome(users, Json(Fail, "User not found"))
      else
        var p := Perform(users[userId], command);
        Outcome(users[userId := p.user], Json(Ok, p.message))
  }

  /**
   * `action` keeps no session: a command that decrypts to the `command`
   * field and carries a valid terminal signature is run on any existing
   * account named by `user_id`, without that user ever having logged in
   * and without any password.
   */
  lemma ActionNeedsNoLogin(users: Users, files: KeyFiles, c: Primitives, atmId: string, userId: string,
                           sigType: string, command: string, encrypted: Bytes, signature: Bytes)
    requires c.decrypt(encrypted) == Some(command)
    requires SignedBy(files, c, atmId, sigType, command, signature)
    requires userId in users
    ensures Action(users, files, c, atmId, userId, sigType, command, encrypted, signature).response
              == Json(Ok, Perform(users[userId], command).message)
  {
  }

  // ---------------------------------------------------------------------
  // Runs of requests

  /** One request against the users file. */
  function Handle(users: Users, files: KeyFiles, c: Primitives, req: Request): (o: Outcome)
    ensures req.LoginRequest? ==> o.users == users
  {
    match req
    case SignupRequest(userId, password) => Signup(users, userId, password)
    case LoginRequest(atmId, encrypted, signature, sigType) =>
      Outcome(users, Login(users, files, c, atmId, encrypted, signature, sigType))
    case ActionRequest(atmId, userId, sigType, command, encrypted, signature) =>
      Action(users, files, c, atmId, userId, sigType, command, encrypted, signature)
  }

  /** The users file after the requests, served one at a time in order; no user is ever removed. */
  function Replay(users: Users, files: KeyFiles, c: Primitives, reqs: seq<Request>): (r: Users)
    ensures users.Keys <= r.Keys
    decreases |reqs|
  {
    if reqs == [] then users else Replay(Handle(users, files, c, reqs[0]).users, files, c, reqs[1..])
  }

  /** No balance is below zero. */
  ghost predicate Solvent(users: Users)
  {
    forall u :: u in users ==> users[u].balance >= 0
  }

  /** Every balance is what the user's activity entries add up to. */
  ghost predicate Accounted(users: Users)
  {
    forall u :: u in users ==> users[u].balance == Net(users[u].activity)
  }

  /** Serving two runs of requests one after the other is serving them as one run. */
  lemma {:induction false} ReplayOfConcat(users: Users, files: KeyFiles, c: Primitives, first: seq<Request>, second: seq<Request>)
    ensures Replay(users, files, c, first + second) == Replay(Replay(users, files, c, first), files, c, second)
    decreases |first|
  {
    if first != [] {
      assert (first + second)[0] == first[0];
      assert (first + second)[1..] == first[1..] + second;
      ReplayOfConcat(Handle(users, files, c, first[0]).users, files, c, first[1..], second);
    } else {
      assert first + second == second;
    }
  }

  /** One request keeps every balance non-negative. */
  lemma HandleKeepsSolvent(users: Users, files: KeyFiles, c: Primitives, req: Request)
    requires Solvent(users)
    ensures Solvent(Handle(users, files, c, req).users)
  {
    if req.ActionRequest? {
      var o := Handle(users, files, c, req);
      if o.users != users {
        var p := Perform(users[req.userId], req.command);
        assert o.users == users[req.userId := p.user];
      }
    }
  }

  /**
   * Starting from any users file without a negative balance, seeded balances
   * included, no run of requests ever produces one.
   */
  lemma {:induction false} ReplayKeepsSolvent(users: Users, files: KeyFiles, c: Primitives, reqs: seq<Request>)
    requires Solvent(users)
    ensures Solvent(Replay(users, files, c, reqs))
    decreases |reqs|
  {
    if reqs != [] {
      HandleKeepsSolvent(users, files, c, reqs[0]);
      ReplayKeepsSolvent(Handle(users, files, c, reqs[0]).users, files, c, reqs[1..]);
    }
  }

  /** One request keeps the store solvent and every balance accounted for. */
  lemma HandleKeepsLedger(users: Users, files: KeyFiles, c: Primitives, req: Request)
    requires Solvent(users) && Accounted(users)
    ensures Solvent(Handle(users, files, c, req).users)
    ensures Accounted(Handle(users, files, c, req).users)
  {
    if req.ActionRequest? {
      var o := Handle(users, files, c, req);
      if o.users != users {
        var p := Perform(users[req.userId], req.command);
        PerformKeepsBalanceAccounted(users[req.userId], req.command);
        assert o.users == users[req.userId := p.user];
      }
    }
  }

  /**
   * Starting from any solvent, accounted store (the empty file the API
   * starts with is one), every run of requests leaves it solvent and
   * accounted: no overdraft, and no balance change without its activity entry.
   */
  lemma {:induction false} ReplayKeepsLedger(users: Users, files: KeyFiles, c: Primitives, reqs: seq<Request>)
    requires Solvent(users) && Accounted(users)
    ensures Solvent(Replay(users, files, c, reqs)) && Accounted(Replay(users, files, c, reqs))
    decreases |reqs|
  {
    if reqs != [] {
      HandleKeepsLedger(users, files, c, reqs[0]);
      ReplayKeepsLedger(Handle(users, files, c, reqs[0]).users, files, c, reqs[1..]);
    }
  }

  /** Requests never remove a user, and a user's password never changes once created. */
  lemma {:induction false} ReplayKeepsUsers(users: Users, files: KeyFiles, c: Primitives, reqs: seq<Request>)
    ensures users.Keys <= Replay(users, files, c, reqs).Keys
    ensures forall u :: u in users ==> Replay(users, files, c, reqs)[u].password == users[u].password
    decreases |reqs|
  {
    if reqs != [] {
      var next := Handle(users, files, c, reqs[0]).users;
      ReplayKeepsUsers(next, files, c, reqs[1..]);
      assert users.Keys <= next.Keys;
      assert forall u :: u in users ==> next[u].password == users[u].password;
    }
  }
}
