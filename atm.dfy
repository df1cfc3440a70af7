/**
  The ATM: a session that is either anonymous or logged in as one user, the
  commands typed at the terminal, and the check-user / PIN exchange that opens a
  session. Step gives, for a session and one command line, the next session, the
  messages sent to the bank and the text printed; the class Atm keeps the two
  fields of the C struct and is proved to do what Step says.
 */
module Atm {
  import opened CText
  import Ledger

  const MaxUserLength: nat := 250
  const VerbWidth: nat := 19
  const PinWidth: nat := 4

  /** The protocol state: `is_authenticated` and `current_user` seen together. */
  datatype Session = Anonymous | Authenticated(user: string)

  /** A user name as `%250s` reads it: one to 250 characters, none of them white space. */
  ghost predicate UserName(user: string)
  {
    0 < |user| <= MaxUserLength && forall k :: 0 <= k < |user| ==> !IsSpace(user[k])
  }

  ghost predicate ValidSession(s: Session)
  {
    s.Authenticated? ==> UserName(s.user)
  }

  /** What the terminal reads while it handles one command: the bank's reply to the
      message it sends (None when the receive returns no bytes), the card files by
      user name (a name without an entry has no card file that opens), and `typed`,
      all the standard input from the PIN prompt on. `%4s` skips white space,
      newlines included, so a blank line makes it wait for the next one; it finds no
      token only when `typed` is all white space, that is, at end of input. */
  datatype World = World(reply: Option<string>, cards: map<string, string>, typed: string)

  /** The card file of user: it opens exactly when the user has an entry. */
  function CardOf(w: World, user: string): (r: Option<string>)
    ensures r.Some? <==> user in w.cards
  {
    if user in w.cards then Some(w.cards[user]) else None
  }

  /** What `authenticate_user` does: its result, what it sends, what it prints. */
  datatype Verdict = Verdict(ok: bool, sent: seq<string>, printed: string)

  /** What handling one command does: the next session, the messages sent to the
      bank, and the text printed on the terminal. */
  datatype Reaction = Reaction(session: Session, sent: seq<string>, printed: string)

  /** The token a `%4s` conversion reads from the start of a text, if there is one. */
  function PinToken(s: string): (r: Option<string>)
    ensures r.Some? ==> 0 < |r.value| <= PinWidth
  {
    match ScanField(s, 0, PinWidth)
    case None => None
    case Some((p, _)) => Some(p)
  }

  /** There is no token exactly when the text is all white space; a token has one
      to four characters, none of them white space. */
  lemma PinTokenMeaning(s: string)
    ensures PinToken(s).None? <==> forall k :: 0 <= k < |s| ==> IsSpace(s[k])
    ensures PinToken(s).Some? ==>
              && 0 < |PinToken(s).value| <= PinWidth
              && forall k :: 0 <= k < |PinToken(s).value| ==> !IsSpace(PinToken(s).value[k])
  {
    ScanFieldMeaning(s, 0, PinWidth);
  }

  /** The prompt `authenticate_user` prints before reading the PIN, and its two verdicts. */
  const PinPrompt := "PIN? "
  const Authorized := "Authorized\n"
  const NotAuthorized := "Not authorized\n"

  /** `authenticate_user(atm, user)`, its I/O given as the bank's reply, the card
      file's contents and the input from the PIN prompt on: ask the bank whether the user exists,
      stop on "No such user", then read the card's PIN, prompt, and compare. */
  function Authenticate(user: string, reply: Option<string>, card: Option<string>, typed: string): (r: Verdict)
    ensures r.sent == ["check-user " + user]
  {
    var sent := ["check-user " + user];
    if reply == Some(Ledger.NoSuchUser) then Verdict(false, sent, "No such user\n")
    else if card.None? then Verdict(false, sent, "Unable to access " + user + "'s card\n")
    else match PinToken(card.value)
      case None => Verdict(false, sent, "Invalid card file\n")
      case Some(stored) =>
        match PinToken(typed)
        case None => Verdict(false, sent, PinPrompt + NotAuthorized)
        case Some(entered) =>
          if stored == entered then Verdict(true, sent, PinPrompt + Authorized)
          else Verdict(false, sent, PinPrompt + NotAuthorized)
  }

  /** The text `printf("%s\n", response)` prints when the receive returned bytes. */
  function Received(reply: Option<string>): (r: string)
    ensures r == "" <==> reply.None?
  {
    match reply
    case None => ""
    case Some(m) => m + "\n"
  }

  /** The verb `sscanf(command, "%19s", cmd)` reads; "" for a blank line, where C
      leaves `cmd` uninitialised (the model lets no verb match it). */
  function Verb(line: string): (v: string)
    ensures |v| <= VerbWidth
  {
    match ScanField(line, 0, VerbWidth)
    case None => ""
    case Some((v, _)) => v
  }

  const UsageBeginSession := "Usage: begin-session <user-name>\n"
  const UsageWithdraw := "Usage: withdraw <amt>\n"
  const NoUserLoggedIn := "No user logged in\n"
  const AlreadyLoggedIn := "A user is already logged in\n"
  const LoggedOut := "User logged out\n"
  const InvalidCommand := "Invalid command\n"

  /** `atm_process_command(atm, command)`: the command is cut at its first newline,
      then dispatched on its verb. */
  function Step(s: Session, command: string, w: World): (r: Reaction)
    ensures r.session != s ==>
              || (s.Anonymous? && Verb(BeforeNewline(command)) == "begin-session")
              || (s.Authenticated? && Verb(BeforeNewline(command)) == "end-session" && r.session == Anonymous)
  {
    var line := BeforeNewline(command);
    var verb := Verb(line);
    if verb == "begin-session" then BeginSession(s, line, w)
    else if verb == "balance" then Balance(s, w)
    else if verb == "withdraw" then Withdraw(s, line, w)
    else if verb == "end-session" then EndSession(s)
    else Reaction(s, [], InvalidCommand)
  }

  function BeginSession(s: Session, line: string, w: World): (r: Reaction)
    ensures r.session != s ==> s.Anonymous?
  {
    match SecondField(line, MaxUserLength)
    case None => Reaction(s, [], UsageBeginSession)
    case Some(user) =>
      var extracted := "Extracted user: " + user + "\n";
      if s.Authenticated? then Reaction(s, [], extracted + AlreadyLoggedIn)
      else
        var v := Authenticate(user, w.reply, CardOf(w, user), w.typed);
        Reaction(if v.ok then Authenticated(user) else s, v.sent, extracted + v.printed)
  }

  function Balance(s: Session, w: World): (r: Reaction)
    ensures r.session == s
  {
    if s.Anonymous? then Reaction(s, [], NoUserLoggedIn)
    else
      var request := "balance " + s.user;
      Reaction(s, [request], "Sending request to bank: " + request + "\n" + Received(w.reply))
  }

  function Withdraw(s: Session, line: string, w: World): (r: Reaction)
    ensures r.session == s
  {
    if s.Anonymous? then Reaction(s, [], NoUserLoggedIn)
    else match IntAfterField(line)
      case None => Reaction(s, [], UsageWithdraw)
      case Some(amount) =>
        if amount < 0 then Reaction(s, [], UsageWithdraw)
        else
          var request := "withdraw " + s.user + " " + FormatInt(amount);
          Reaction(s, [request], Received(w.reply))
  }

  function EndSession(s: Session): (r: Reaction)
    ensures r.session == Anonymous && r.sent == []
  {
    if s.Anonymous? then Reaction(s, [], NoUserLoggedIn)
    else Reaction(Anonymous, [], LoggedOut)
  }

  // ---------------------------------------------------------------------------
  // The ATM object

  class Atm {
    /** `is_authenticated`: 1 is true, 0 is false. */
    var isAuthenticated: bool
    /** `current_user`, its contents up to the first NUL. */
    var currentUser: string

    /** The two fields agree, and a logged-in user's name is one `%250s` read. */
    ghost predicate Valid()
      reads this
    {
      (isAuthenticated <==> currentUser != []) && ValidSession(Session())
    }

    ghost function Session(): Session
      reads this
    {
      if isAuthenticated then Authenticated(currentUser) else Anonymous
    }

    /** The protocol state `atm_create` sets up. */
    constructor ()
      ensures Valid()
      ensures !isAuthenticated && currentUser == []
      ensures Session() == Anonymous
    {
      isAuthenticated := false;
      currentUser := [];
    }

    /** `atm_process_command(atm, command)`. */
    method ProcessCommand(command: string, w: World) returns (sent: seq<string>, printed: string)
      requires Valid()
      modifies this
      ensures Valid()
      ensures Reaction(Session(), sent, printed) == Step(old(Session()), command, w)
    {
      StepKeepsValid(Session(), command, w);
      var line := BeforeNewline(command);
      var verb := Verb(line);
      SecondFieldWord(line, MaxUserLength);
      sent := [];
      if verb == "begin-session" {
        var user := SecondField(line, MaxUserLength);
        if user.None? {
          return [], UsageBeginSession;
        }
        printed := "Extracted user: " + user.value + "\n";
        if isAuthenticated {
          return [], printed + AlreadyLoggedIn;
        }
        var ok, out;
        ok, sent, out := AuthenticateUser(user.value, w);
        printed := printed + out;
        if !ok {
          return;
        }
        currentUser := user.value;
        isAuthenticated := true;
      } else if verb == "balance" {
        if !isAuthenticated {
          return [], NoUserLoggedIn;
        }
        var request := "balance " + currentUser;
        printed := "Sending request to bank: " + request + "\n";
        sent := [request];
        printed := printed + Received(w.reply);
      } else if verb == "withdraw" {
        if !isAuthenticated {
          return [], NoUserLoggedIn;
        }
        var amount := IntAfterField(line);
        if amount.None? || amount.value < 0 {
          return [], UsageWithdraw;
        }
        var request := "withdraw " + currentUser + " " + FormatInt(amount.value);
        sent := [request];
        printed := Received(w.reply);
      } else if verb == "end-session" {
        if !isAuthenticated {
          return [], NoUserLoggedIn;
        }
        isAuthenticated := false;
        currentUser := [];
        printed := LoggedOut;
      } else {
        printed := InvalidCommand;
      }
    }
  }

  /** `authenticate_user(atm, user)` step by step, each failure returning at once. */
  method AuthenticateUser(user: string, w: World) returns (ok: bool, sent: seq<string>, printed: string)
    ensures Verdict(ok, sent, printed) == Authenticate(user, w.reply, CardOf(w, user), w.typed)
  {
    sent := ["check-user " + user];
    ok := false;
    if w.reply.Some? && w.reply.value == Ledger.NoSuchUser {
      return false, sent, "No such user\n";
    }
    if user !in w.cards {
      return false, sent, "Unable to access " + user + "'s card\n";
    }
    var stored := PinToken(w.cards[user]);
    if stored.None? {
      return false, sent, "Invalid card file\n";
    }
    printed := PinPrompt;
    var entered := PinToken(w.typed);
    if entered.None? {
      return false, sent, printed + NotAuthorized;
    }
    if stored.value == entered.value {
      ok, printed := true, printed + Authorized;
    } else {
      printed := printed + NotAuthorized;
    }
  }

  // ---------------------------------------------------------------------------
  // Lemmas

  /** Every command keeps the session well formed: only a name read by `%250s`
      becomes the current user. */
  lemma StepKeepsValid(s: Session, command: string, w: World)
    requires ValidSession(s)
    ensures ValidSession(Step(s, command, w).session)
  {
    SecondFieldWord(BeforeNewline(command), MaxUserLength);
  }

  /** Authentication succeeds exactly when the bank did not answer "No such user",
      the card file opens and holds a token, and the first token typed, cut to four
      characters, equals the card's. */
  lemma AuthenticateIff(user: string, reply: Option<string>, card: Option<string>, typed: string)
    ensures Authenticate(user, reply, card, typed).ok <==>
              && reply != Some(Ledger.NoSuchUser)
              && card.Some? && PinToken(card.value).Some?
              && PinToken(typed) == PinToken(card.value)
  {
  }

  /** A "No such user" reply ends authentication before the card is read or the
      PIN asked for, whatever the card and the typed line are. */
  lemma NoSuchUserStops(user: string, card: Option<string>, typed: string)
    ensures var v := Authenticate(user, Some(Ledger.NoSuchUser), card, typed);
            !v.ok && v.printed == "No such user\n"
  {
  }

  /** A missing card file, or one holding no token, refuses without a PIN prompt. */
  lemma BadCardRefuses(user: string, reply: Option<string>, card: Option<string>, typed: string)
    requires reply != Some(Ledger.NoSuchUser)
    requires card.None? || forall k :: 0 <= k < |card.value| ==> IsSpace(card.value[k])
    ensures var v := Authenticate(user, reply, card, typed);
            && !v.ok
            && v.printed == (if card.None? then "Unable to access " + user + "'s card\n" else "Invalid card file\n")
  {
    if card.Some? {
      PinTokenMeaning(card.value);
    }
  }

  /** A receive that returns nothing is treated like any reply other than
      "No such user": authentication goes on to the card. */
  lemma FailedReceiveFallsThrough(user: string, other: string, card: Option<string>, typed: string)
    requires other != Ledger.NoSuchUser
    ensures Authenticate(user, None, card, typed) == Authenticate(user, Some(other), card, typed)
  {
  }

  /** The first white-space-free run of up to four characters, written at the start
      of a text, is the token `%4s` reads there. */
  lemma PinTokenOf(pin: string, rest: string)
    requires 0 < |pin| <= PinWidth && forall k :: 0 <= k < |pin| ==> !IsSpace(pin[k])
    requires |pin| == PinWidth || rest == [] || IsSpace(rest[0])
    ensures PinToken(pin + rest) == Some(pin)
  {
    var s := pin + rest;
    assert s[0..|pin|] == pin;
    FieldAtScanned(s, 0, pin, |pin|, PinWidth);
  }

  /** Only the first four characters of the typed PIN are compared: input that
      starts with the card's four-character PIN authenticates whatever else the
      line holds, so "12345" opens the card holding "1234". A newline must follow
      the PIN: without one the `getchar` loop after it never ends. */
  lemma LongPinAccepted(user: string, reply: Option<string>, pin: string, cardRest: string, extra: string)
    requires reply != Some(Ledger.NoSuchUser)
    requires '\n' in extra
    requires |pin| == PinWidth && forall k :: 0 <= k < |pin| ==> !IsSpace(pin[k])
    ensures var v := Authenticate(user, reply, Some(pin + cardRest), pin + extra);
            v.ok && v.printed == PinPrompt + Authorized
  {
    PinTokenOf(pin, cardRest);
    PinTokenOf(pin, extra);
  }

  /** Only a successful authentication while anonymous logs a user in, and then as
      the name the command gave, on the reply, card and typed line of the world. */
  lemma LogInOnlyByAuthentication(s: Session, command: string, w: World)
    requires Step(s, command, w).session.Authenticated? && Step(s, command, w).session != s
    ensures var line := BeforeNewline(command);
            var user := SecondField(line, MaxUserLength);
            && s == Anonymous
            && Verb(line) == "begin-session"
            && user.Some?
            && Step(s, command, w).session == Authenticated(user.value)
            && Authenticate(user.value, w.reply, CardOf(w, user.value), w.typed).ok
  {
    var line := BeforeNewline(command);
    assert Verb(line) == "begin-session";
  }

  /** The converse: while anonymous, a `begin-session` naming a user whose
      authentication succeeds logs that user in, after the check-user exchange. */
  lemma BeginSessionLogsIn(command: string, user: string, w: World)
    requires Verb(BeforeNewline(command)) == "begin-session"
    requires SecondField(BeforeNewline(command), MaxUserLength) == Some(user)
    requires Authenticate(user, w.reply, CardOf(w, user), w.typed).ok
    ensures Step(Anonymous, command, w) ==
              Reaction(Authenticated(user), ["check-user " + user],
                       "Extracted user: " + user + "\n" + Authenticate(user, w.reply, CardOf(w, user), w.typed).printed)
  {
  }

  /** Anonymous, the commands that need a session print "No user logged in", send
      nothing and stay anonymous. */
  lemma AnonymousRefuses(command: string, w: World)
    requires Verb(BeforeNewline(command)) in {"balance", "withdraw", "end-session"}
    ensures Step(Anonymous, command, w) == Reaction(Anonymous, [], NoUserLoggedIn)
  {
  }

  /** An anonymous terminal sends the bank nothing but the `check-user` of a
      `begin-session` that names a user. */
  lemma AnonymousSendsOnlyCheckUser(command: string, w: World)
    ensures var line := BeforeNewline(command);
            var user := SecondField(line, MaxUserLength);
            Step(Anonymous, command, w).sent ==
              if Verb(line) == "begin-session" && user.Some? then ["check-user " + user.value] else []
  {
    var line := BeforeNewline(command);
    var verb := Verb(line);
    if verb == "begin-session" {
      assert Step(Anonymous, command, w) == BeginSession(Anonymous, line, w);
    } else if verb in {"balance", "withdraw", "end-session"} {
      assert Step(Anonymous, command, w).sent == [];
    }
  }

  /** `begin-session` with a user logged in prints the extracted name and the
      refusal, sends nothing and keeps the session. */
  lemma BeginWhileLoggedIn(user: string, command: string, w: World)
    requires Verb(BeforeNewline(command)) == "begin-session"
    requires SecondField(BeforeNewline(command), MaxUserLength).Some?
    ensures var other := SecondField(BeforeNewline(command), MaxUserLength).value;
            Step(Authenticated(user), command, w) ==
              Reaction(Authenticated(user), [], "Extracted user: " + other + "\n" + AlreadyLoggedIn)
  {
  }

  /** A logged-in `balance` sends exactly "balance <current user>" and keeps the session. */
  lemma BalanceRequest(user: string, command: string, w: World)
    requires Verb(BeforeNewline(command)) == "balance"
    ensures var r := Step(Authenticated(user), command, w);
            r.session == Authenticated(user) && r.sent == ["balance " + user]
  {
  }

  /** A logged-in `withdraw` sends nothing and prints the usage line when the amount
      is missing, not a number or negative; otherwise it sends exactly
      "withdraw <current user> <amount>". The session is kept either way. */
  lemma WithdrawRequest(user: string, command: string, w: World)
    requires Verb(BeforeNewline(command)) == "withdraw"
    ensures var r := Step(Authenticated(user), command, w);
            var amount := IntAfterField(BeforeNewline(command));
            && r.session == Authenticated(user)
            && (amount.None? || amount.value < 0 ==> r.sent == [] && r.printed == UsageWithdraw)
            && (amount.Some? && amount.value >= 0 ==>
                  r.sent == ["withdraw " + user + " " + FormatInt(amount.value)] && r.printed == Received(w.reply))
  {
  }

  /** `end-session` while logged in returns to the anonymous state. */
  lemma EndSessionLogsOut(user: string, command: string, w: World)
    requires Verb(BeforeNewline(command)) == "end-session"
    ensures Step(Authenticated(user), command, w) == Reaction(Anonymous, [], LoggedOut)
  {
  }

  /** A verb the ATM does not know prints "Invalid command", sends nothing and
      keeps the session. */
  lemma UnknownVerb(s: Session, command: string, w: World)
    requires Verb(BeforeNewline(command)) !in {"begin-session", "balance", "withdraw", "end-session"}
    ensures Step(s, command, w) == Reaction(s, [], InvalidCommand)
  {
  }
}
