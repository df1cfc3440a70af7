/**
  The ATM and the bank together. The requests the terminal composes with
  `snprintf` are read back by the bank's `sscanf` formats as the same user and
  amount, so a session's commands reach the ledger as the operations Ledger
  defines; the last lemmas follow one account through a whole session.
 */
module Protocol {
  import opened CText
  import opened Ledger
  import Atm

  /** A text with no white space in it, one that `%s` reads whole. */
  ghost predicate Word(s: string)
  {
    0 < |s| && forall k :: 0 <= k < |s| ==> !IsSpace(s[k])
  }

  /** The verbs of the protocol and of the consoles are single words. */
  lemma VerbsAreWords()
    ensures Word("check-user") && Word("balance") && Word("withdraw") && Word("create-user") && Word("deposit")
    ensures Word("begin-session") && Word("end-session")
  {
  }

  // ---------------------------------------------------------------------------
  // Where the pieces of a request sit

  /** "<a> <b>": a first, then a space, then b. */
  lemma Layout2(a: string, b: string)
    ensures var m := a + " " + b;
            && |m| == |a| + 1 + |b|
            && m[..|a|] == a && m[|a|] == ' ' && m[|a| + 1..] == b
  {
    var m := a + " " + b;
    assert m[..|a|] == a;
    assert m[|a| + 1..] == b;
  }

  /** "<a> <b> <c>": the three pieces and the spaces between them. */
  lemma Layout3(a: string, b: string, c: string)
    ensures var m := a + " " + b + " " + c;
            && |m| == |a| + 1 + |b| + 1 + |c|
            && m[..|a|] == a && m[|a|] == ' '
            && m[|a| + 1..|a| + 1 + |b|] == b && m[|a| + 1 + |b|] == ' '
            && m[|a| + 1 + |b| + 1..] == c
  {
    var h := a + " " + b;
    var m := h + " " + c;
    Layout2(a, b);
    Layout2(h, c);
    assert m[..|h|] == h;
    assert m[|a| + 1..|a| + 1 + |b|] == h[|a| + 1..];
  }

  /** "<a> <b> <c> <d>": the four pieces and the spaces between them. */
  lemma Layout4(a: string, b: string, c: string, d: string)
    ensures var m := a + " " + b + " " + c + " " + d;
            && |m| == |a| + 1 + |b| + 1 + |c| + 1 + |d|
            && m[..|a|] == a && m[|a|] == ' '
            && m[|a| + 1..|a| + 1 + |b|] == b && m[|a| + 1 + |b|] == ' '
            && m[|a| + 1 + |b| + 1..|a| + 1 + |b| + 1 + |c|] == c && m[|a| + 1 + |b| + 1 + |c|] == ' '
            && m[|a| + 1 + |b| + 1 + |c| + 1..] == d
  {
    var h := a + " " + b + " " + c;
    var m := h + " " + d;
    Layout3(a, b, c);
    Layout2(h, d);
    assert m[..|h|] == h;
    assert m[..|a|] == h[..|a|];
    assert m[|a| + 1..|a| + 1 + |b|] == h[|a| + 1..|a| + 1 + |b|];
    assert m[|a| + 1 + |b| + 1..|a| + 1 + |b| + 1 + |c|] == h[|a| + 1 + |b| + 1..];
  }

  // ---------------------------------------------------------------------------
  // What the bank's formats read from a laid-out text

  /** `%*s %<width>s` on "<verb> <field>". */
  lemma TwoWordsScanned(m: string, verb: string, field: string, width: nat)
    requires Word(verb) && Word(field) && (width == 0 || |field| <= width)
    requires |m| == |verb| + 1 + |field|
    requires m[..|verb|] == verb && m[|verb|] == ' ' && m[|verb| + 1..] == field
    ensures ScanField(m, 0, 0) == Some((verb, |verb|))
    ensures ScanField(m, |verb|, width) == Some((field, |m|))
    ensures SecondField(m, width) == Some(field)
  {
    ScanWrittenField(m, 0, 0, verb, 0);
    ScanWrittenField(m, |verb|, |verb| + 1, field, width);
  }

  /** The first two conversions of a request: the verb, then the name after it,
      followed by a space. */
  lemma VerbAndNameScanned(m: string, verb: string, name: string)
    requires Word(verb) && Atm.UserName(name)
    requires |verb| + 1 + |name| < |m|
    requires m[..|verb|] == verb && m[|verb|] == ' '
    requires m[|verb| + 1..|verb| + 1 + |name|] == name && m[|verb| + 1 + |name|] == ' '
    ensures ScanField(m, 0, 0) == Some((verb, |verb|))
    ensures ScanField(m, |verb|, MaxNameLength) == Some((name, |verb| + 1 + |name|))
  {
    ScanWrittenField(m, 0, 0, verb, 0);
    ScanWrittenField(m, |verb|, |verb| + 1, name, MaxNameLength);
  }

  /** `%d` after a space at i reads the numeral that ends the text. */
  lemma AmountScanned(m: string, i: nat, amount: Int32)
    requires |m| == i + 1 + |FormatInt(amount)|
    requires m[i] == ' ' && m[i + 1..] == FormatInt(amount)
    ensures ScanInt(m, i) == Some((amount, |m|))
  {
    ScanFormattedInt(m, i, i + 1, amount);
  }

  /** The withdraw format reads what its three conversions read. */
  lemma NameAmountArgsOf(m: string, verb: string, e1: nat, name: string, e2: nat, amount: Int32)
    requires ScanField(m, 0, 0) == Some((verb, e1))
    requires ScanField(m, e1, MaxNameLength) == Some((name, e2))
    requires ScanInt(m, e2).Some? && ScanInt(m, e2).value.0 == amount
    ensures Verb(m) == verb && NameAmountArgs(m) == Some((name, amount))
  {
  }

  /** `%*s %250s %d` on "<verb> <name> <amount>". */
  lemma NameAmountScanned(m: string, verb: string, name: string, amount: Int32)
    requires Word(verb) && Atm.UserName(name)
    requires |m| == |verb| + 1 + |name| + 1 + |FormatInt(amount)|
    requires m[..|verb|] == verb && m[|verb|] == ' '
    requires m[|verb| + 1..|verb| + 1 + |name|] == name && m[|verb| + 1 + |name|] == ' '
    requires m[|verb| + 1 + |name| + 1..] == FormatInt(amount)
    ensures Verb(m) == verb && NameAmountArgs(m) == Some((name, amount))
  {
    VerbAndNameScanned(m, verb, name);
    AmountScanned(m, |verb| + 1 + |name|, amount);
    NameAmountArgsOf(m, verb, |verb|, name, |verb| + 1 + |name|, amount);
  }

  /** The last two conversions of a create-user request: the `%4s` PIN after the
      space at i, and the `%d` amount after the PIN. */
  lemma PinAndAmountScanned(m: string, i: nat, pin: string, amount: Int32)
    requires Word(pin) && |pin| <= PinLength
    requires |m| == i + 1 + |pin| + 1 + |FormatInt(amount)|
    requires m[i] == ' ' && m[i + 1..i + 1 + |pin|] == pin && m[i + 1 + |pin|] == ' '
    requires m[i + 1 + |pin| + 1..] == FormatInt(amount)
    ensures ScanField(m, i, PinLength) == Some((pin, i + 1 + |pin|))
    ensures ScanInt(m, i + 1 + |pin|) == Some((amount, |m|))
  {
    ScanWrittenField(m, i, i + 1, pin, PinLength);
    AmountScanned(m, i + 1 + |pin|, amount);
  }

  /** The create-user format reads what its four conversions read. */
  lemma CreateUserArgsOf(m: string, verb: string, e1: nat, name: string, e2: nat, pin: string, e3: nat,
                         amount: Int32)
    requires ScanField(m, 0, 0) == Some((verb, e1))
    requires ScanField(m, e1, MaxNameLength) == Some((name, e2))
    requires ScanField(m, e2, PinLength) == Some((pin, e3))
    requires ScanInt(m, e3).Some? && ScanInt(m, e3).value.0 == amount
    ensures Verb(m) == verb && CreateUserArgs(m) == Some((name, pin, amount))
  {
  }

  /** `%*s %250s %4s %d` on "<verb> <name> <pin> <amount>". */
  lemma NamePinAmountScanned(m: string, verb: string, name: string, pin: string, amount: Int32)
    requires Word(verb) && Atm.UserName(name) && Word(pin) && |pin| <= PinLength
    requires |m| == |verb| + 1 + |name| + 1 + |pin| + 1 + |FormatInt(amount)|
    requires m[..|verb|] == verb && m[|verb|] == ' '
    requires m[|verb| + 1..|verb| + 1 + |name|] == name && m[|verb| + 1 + |name|] == ' '
    requires m[|verb| + 1 + |name| + 1..|verb| + 1 + |name| + 1 + |pin|] == pin
    requires m[|verb| + 1 + |name| + 1 + |pin|] == ' '
    requires m[|verb| + 1 + |name| + 1 + |pin| + 1..] == FormatInt(amount)
    ensures Verb(m) == verb && CreateUserArgs(m) == Some((name, pin, amount))
  {
    var e2 := |verb| + 1 + |name|;
    var e3 := e2 + 1 + |pin|;
    assert ScanField(m, 0, 0) == Some((verb, |verb|)) && ScanField(m, |verb|, MaxNameLength) == Some((name, e2)) by {
      VerbAndNameScanned(m, verb, name);
    }
    assert ScanField(m, e2, PinLength) == Some((pin, e3)) && ScanInt(m, e3) == Some((amount, |m|)) by {
      PinAndAmountScanned(m, e2, pin, amount);
    }
    CreateUserArgsOf(m, verb, |verb|, name, e2, pin, e3, amount);
  }

  // ---------------------------------------------------------------------------
  // The bank reads what the ATM sends

  /** The bank reads "check-user <user>" as a check of that user, and answers
      "User exists" or "No such user" as the ledger holds the name or not. */
  lemma BankReadsCheckUser(t: Table, user: string)
    requires Atm.UserName(user)
    ensures Verb("check-user " + user) == "check-user"
    ensures SecondField("check-user " + user, MaxNameLength) == Some(user)
    ensures RemoteCommand(t, "check-user " + user) ==
              Effect(t, if Lookup(t, user).Some? then UserExists else NoSuchUser)
  {
    var m := "check-user " + user;
    VerbsAreWords();
    Layout2("check-user", user);
    assert "check-user" + " " + user == m;
    TwoWordsScanned(m, "check-user", user, MaxNameLength);
    RemoteCheckUser(t, m, user);
  }

  /** The bank reads "balance <user>" as that user's balance query: it changes
      nothing and replies with the line `check_balance` would print, less its newline. */
  lemma BankReadsBalance(t: Table, user: string)
    requires Atm.UserName(user)
    ensures Verb("balance " + user) == "balance"
    ensures SecondField("balance " + user, MaxNameLength) == Some(user)
    ensures RemoteCommand(t, "balance " + user).users == t
    ensures RemoteCommand(t, "balance " + user).out + "\n" == CheckBalance(t, user)
  {
    var m := "balance " + user;
    VerbsAreWords();
    Layout2("balance", user);
    assert "balance" + " " + user == m;
    TwoWordsScanned(m, "balance", user, MaxNameLength);
  }

  /** The bank reads "withdraw <user> <amount>" as a withdrawal of that amount
      from that user. */
  lemma BankReadsWithdraw(t: Table, user: string, amount: Int32)
    requires Atm.UserName(user)
    ensures var m := "withdraw " + user + " " + FormatInt(amount);
            && Verb(m) == "withdraw"
            && NameAmountArgs(m) == Some((user, amount))
            && RemoteCommand(t, m) == Withdraw(t, user, amount)
  {
    var m := "withdraw " + user + " " + FormatInt(amount);
    VerbsAreWords();
    Layout3("withdraw", user, FormatInt(amount));
    assert "withdraw" + " " + user + " " + FormatInt(amount) == m;
    NameAmountScanned(m, "withdraw", user, amount);
  }

  /** The operator's "create-user <name> <pin> <balance>" is read as that creation. */
  lemma BankReadsCreateUser(t: Table, name: string, pin: string, balance: Int32)
    requires Atm.UserName(name) && Word(pin) && |pin| <= PinLength
    ensures LocalCommand(t, "create-user " + name + " " + pin + " " + FormatInt(balance)) ==
              CreateUser(t, name, pin, balance)
  {
    var m := "create-user " + name + " " + pin + " " + FormatInt(balance);
    VerbsAreWords();
    Layout4("create-user", name, pin, FormatInt(balance));
    assert "create-user" + " " + name + " " + pin + " " + FormatInt(balance) == m;
    NamePinAmountScanned(m, "create-user", name, pin, balance);
  }

  /** The operator's "deposit <name> <amount>" is read as that deposit. */
  lemma BankReadsDeposit(t: Table, name: string, amount: Int32)
    requires Atm.UserName(name)
    ensures LocalCommand(t, "deposit " + name + " " + FormatInt(amount)) == Deposit(t, name, amount)
  {
    var m := "deposit " + name + " " + FormatInt(amount);
    VerbsAreWords();
    Layout3("deposit", name, FormatInt(amount));
    assert "deposit" + " " + name + " " + FormatInt(amount) == m;
    NameAmountScanned(m, "deposit", name, amount);
  }

  // ---------------------------------------------------------------------------
  // The ATM reads what the user types

  /** A text whose only white space is plain spaces has no newline: the trim keeps it whole. */
  lemma NotTrimmed(s: string)
    requires forall k :: 0 <= k < |s| ==> !IsSpace(s[k]) || s[k] == ' '
    ensures BeforeNewline(s) == s
  {
  }

  /** "begin-session <name>" opens a session for name. */
  lemma AtmReadsBeginSession(name: string)
    requires Atm.UserName(name)
    ensures var c := "begin-session " + name;
            && BeforeNewline(c) == c
            && Atm.Verb(c) == "begin-session"
            && SecondField(c, Atm.MaxUserLength) == Some(name)
  {
    var c := "begin-session " + name;
    VerbsAreWords();
    Layout2("begin-session", name);
    assert "begin-session" + " " + name == c;
    TwoWordsScanned(c, "begin-session", name, Atm.MaxUserLength);
    ScanWrittenField(c, 0, 0, "begin-session", Atm.VerbWidth);
    forall k | 0 <= k < |c|
      ensures !IsSpace(c[k]) || c[k] == ' '
    {
      if k > 13 {
        assert c[k] == c[14..][k - 14];
      }
    }
    NotTrimmed(c);
  }

  /** "withdraw <amount>" is read as that verb and that amount. */
  lemma WithdrawLineScanned(amount: Int32)
    requires amount >= 0
    ensures var c := "withdraw " + FormatInt(amount);
            && Atm.Verb(c) == "withdraw"
            && IntAfterField(c) == Some(amount)
  {
    var f := FormatInt(amount);
    var c := "withdraw " + f;
    VerbsAreWords();
    Layout2("withdraw", f);
    assert "withdraw" + " " + f == c;
    ScanWrittenField(c, 0, 0, "withdraw", 0);
    ScanWrittenField(c, 0, 0, "withdraw", Atm.VerbWidth);
    ScanFormattedInt(c, 8, 9, amount);
  }

  /** "withdraw <amount>" holds no newline, so the trim keeps it whole. */
  lemma WithdrawLineKept(amount: Int32)
    requires amount >= 0
    ensures BeforeNewline("withdraw " + FormatInt(amount)) == "withdraw " + FormatInt(amount)
  {
    var f := FormatInt(amount);
    var c := "withdraw " + f;
    FormatIntShape(amount);
    forall k | 0 <= k < |c|
      ensures !IsSpace(c[k]) || c[k] == ' '
    {
      if k > 8 {
        assert c[k] == f[k - 9];
      }
    }
    NotTrimmed(c);
  }

  /** "withdraw <amount>" asks for that amount. */
  lemma AtmReadsWithdraw(amount: Int32)
    requires amount >= 0
    ensures var c := "withdraw " + FormatInt(amount);
            && BeforeNewline(c) == c
            && Atm.Verb(c) == "withdraw"
            && IntAfterField(c) == Some(amount)
  {
    WithdrawLineScanned(amount);
    WithdrawLineKept(amount);
  }

  // ---------------------------------------------------------------------------
  // A session against the ledger

  /** What a logged-in `withdraw` sends is the ledger's withdrawal for the current
      user and the amount typed. */
  lemma WithdrawReachesLedger(t: Table, user: string, command: string, w: Atm.World)
    requires Atm.UserName(user)
    requires Atm.Verb(BeforeNewline(command)) == "withdraw"
    requires IntAfterField(BeforeNewline(command)).Some?
    requires IntAfterField(BeforeNewline(command)).value >= 0
    ensures var r := Atm.Step(Atm.Authenticated(user), command, w);
            && |r.sent| == 1
            && RemoteCommand(t, r.sent[0]) == Withdraw(t, user, IntAfterField(BeforeNewline(command)).value)
  {
    BankReadsWithdraw(t, user, IntAfterField(BeforeNewline(command)).value);
  }

  /** When the bank knows no such user, `begin-session` ends at its reply: nothing
      is read from the card, no PIN is asked for, and the terminal stays anonymous. */
  lemma UnknownUserNotPrompted(t: Table, name: string, cards: map<string, string>, typed: string)
    requires Atm.UserName(name) && Lookup(t, name).None?
    ensures var w := Atm.World(Some(RemoteCommand(t, "check-user " + name).out), cards, typed);
            Atm.Step(Atm.Anonymous, "begin-session " + name, w) ==
              Atm.Reaction(Atm.Anonymous, ["check-user " + name], "Extracted user: " + name + "\n" + "No such user\n")
  {
    BankReadsCheckUser(t, name);
    AtmReadsBeginSession(name);
  }

  /** Once the operator has created a user, the bank answers that user's
      `check-user` with "User exists". */
  lemma CreatedUserKnown(t: Table, name: string, pin: string, balance: Int32)
    requires Lookup(t, name).None? && Atm.UserName(name) && |pin| == PinLength && balance >= 0
    ensures RemoteCommand(CreateUser(t, name, pin, balance).users, "check-user " + name).out == UserExists
  {
    BankReadsCheckUser(CreateUser(t, name, pin, balance).users, name);
  }

  /** A user whose card holds the PIN and a newline, as `create_user` writes it, and
      whom the bank knows, logs in by typing that PIN and, later on the line, a newline. */
  lemma CardHolderLogsIn(name: string, pin: string, extra: string)
    requires Atm.UserName(name) && Word(pin) && |pin| == PinLength && '\n' in extra
    ensures var w := Atm.World(Some(UserExists), map[name := pin + "\n"], pin + extra);
            Atm.Step(Atm.Anonymous, "begin-session " + name, w) ==
              Atm.Reaction(Atm.Authenticated(name), ["check-user " + name],
                           "Extracted user: " + name + "\n" + Atm.PinPrompt + Atm.Authorized)
  {
    var w := Atm.World(Some(UserExists), map[name := pin + "\n"], pin + extra);
    assert Atm.CardOf(w, name) == Some(pin + "\n");
    Atm.LongPinAccepted(name, Some(UserExists), pin, "\n", extra);
    AtmReadsBeginSession(name);
    Atm.BeginSessionLogsIn("begin-session " + name, name, w);
  }

  /** A user the operator creates can log in with the card `create_user` writes
      (the PIN and a newline) by typing that PIN and, later on the line, a newline. */
  lemma CreatedUserLogsIn(t: Table, name: string, pin: string, balance: Int32, extra: string)
    requires Lookup(t, name).None? && Atm.UserName(name) && Word(pin) && |pin| == PinLength && balance >= 0
    requires '\n' in extra
    ensures var t1 := CreateUser(t, name, pin, balance).users;
            var w := Atm.World(Some(RemoteCommand(t1, "check-user " + name).out), map[name := pin + "\n"], pin + extra);
            var r := Atm.Step(Atm.Anonymous, "begin-session " + name, w);
            && r.session == Atm.Authenticated(name)
            && r.sent == ["check-user " + name]
            && r.printed == "Extracted user: " + name + "\n" + Atm.PinPrompt + Atm.Authorized
  {
    CreatedUserKnown(t, name, pin, balance);
    CardHolderLogsIn(name, pin, extra);
  }

  /** A logged-in `withdraw` of no more than the balance: the terminal sends
      "withdraw <user> <amount>", the bank takes exactly that amount from that
      account and no other, and the terminal prints "$<amount> dispensed". */
  lemma WithdrawDispenses(t: Table, name: string, amount: Int32)
    requires Atm.UserName(name) && amount >= 0
    requires Lookup(t, name).Some? && Lookup(t, name).value.balance >= amount
    ensures var m := "withdraw " + name + " " + FormatInt(amount);
            var e := RemoteCommand(t, m);
            var r := Atm.Step(Atm.Authenticated(name), "withdraw " + FormatInt(amount), Atm.World(Some(e.out), map[], ""));
            var u := Lookup(t, name).value;
            && r.session == Atm.Authenticated(name)
            && r.sent == [m]
            && r.printed == "$" + FormatInt(amount) + " dispensed\n"
            && Lookup(e.users, name) == Some(u.(balance := u.balance - amount))
            && (forall n :: n != name ==> Lookup(e.users, n) == Lookup(t, n))
  {
    var m := "withdraw " + name + " " + FormatInt(amount);
    var e := RemoteCommand(t, m);
    AtmReadsWithdraw(amount);
    Atm.WithdrawRequest(name, "withdraw " + FormatInt(amount), Atm.World(Some(e.out), map[], ""));
    BankReadsWithdraw(t, name, amount);
    WithdrawDebited(t, name, amount);
  }

  /** A withdrawal from an account that holds a known record. */
  lemma NewAccountWithdraw(t: Table, name: string, pin: string, balance: Int32, amount: Int32)
    requires Atm.UserName(name) && Lookup(t, name) == Some(User(name, pin, balance))
    requires 0 <= amount <= balance
    ensures var e := RemoteCommand(t, "withdraw " + name + " " + FormatInt(amount));
            var r := Atm.Step(Atm.Authenticated(name), "withdraw " + FormatInt(amount), Atm.World(Some(e.out), map[], ""));
            && r.session == Atm.Authenticated(name)
            && r.printed == "$" + FormatInt(amount) + " dispensed\n"
            && Lookup(e.users, name) == Some(User(name, pin, balance - amount))
  {
    var e := RemoteCommand(t, "withdraw " + name + " " + FormatInt(amount));
    var u := Lookup(t, name).value;
    assert Lookup(e.users, name) == Some(User(name, pin, balance - amount)) by {
      WithdrawDispenses(t, name, amount);
      assert u.(balance := u.balance - amount) == User(name, pin, balance - amount);
    }
    WithdrawDispenses(t, name, amount);
  }

  /** "end-session" is read as that verb. */
  lemma AtmReadsEndSession()
    ensures Atm.Verb(BeforeNewline("end-session")) == "end-session"
  {
    VerbsAreWords();
    ScanWrittenField("end-session", 0, 0, "end-session", Atm.VerbWidth);
    NotTrimmed("end-session");
  }

  /** The operator's `create-user` at the bank's console opens an account the ATM can
      log in to with the card's PIN. */
  lemma CreatedAccountOpens(t: Table, name: string, pin: string, balance: Int32)
    requires ValidTable(t) && Lookup(t, name).None?
    requires Atm.UserName(name) && Word(pin) && |pin| == PinLength && balance >= 0
    ensures var t1 := LocalCommand(t, "create-user " + name + " " + pin + " " + FormatInt(balance)).users;
            var login := Atm.World(Some(RemoteCommand(t1, "check-user " + name).out), map[name := pin + "\n"], pin + "\n");
            && ValidTable(t1) && Lookup(t1, name) == Some(User(name, pin, balance))
            && Atm.Step(Atm.Anonymous, "begin-session " + name, login).session == Atm.Authenticated(name)
  {
    BankReadsCreateUser(t, name, pin, balance);
    CreateUserPreservesValid(t, name, pin, balance);
    CreatedUserLogsIn(t, name, pin, balance, "\n");
  }

  /** Logged in to an account holding at least the amount, the user withdraws it and
      logs out. */
  lemma WithdrawThenLogOut(t: Table, name: string, pin: string, balance: Int32, amount: Int32)
    requires Atm.UserName(name) && Lookup(t, name) == Some(User(name, pin, balance))
    requires 0 <= amount <= balance
    ensures var e := RemoteCommand(t, "withdraw " + name + " " + FormatInt(amount));
            var r2 := Atm.Step(Atm.Authenticated(name), "withdraw " + FormatInt(amount), Atm.World(Some(e.out), map[], ""));
            var s3 := Atm.Step(r2.session, "end-session", Atm.World(None, map[], "")).session;
            && r2.printed == "$" + FormatInt(amount) + " dispensed\n"
            && Lookup(e.users, name) == Some(User(name, pin, balance - amount))
            && s3 == Atm.Anonymous
  {
    NewAccountWithdraw(t, name, pin, balance, amount);
    AtmReadsEndSession();
    Atm.EndSessionLogsOut(name, "end-session", Atm.World(None, map[], ""));
  }

  /** A whole session, for any name, PIN, balance and amount: the operator creates
      the user, the user logs in with the card's PIN, withdraws no more than the
      balance, and logs out. The bank ends with the balance lowered by the amount and
      the terminal anonymous again. */
  lemma SessionScenario(t: Table, name: string, pin: string, balance: Int32, amount: Int32)
    requires ValidTable(t) && Lookup(t, name).None?
    requires Atm.UserName(name) && Word(pin) && |pin| == PinLength
    requires 0 <= amount <= balance
    ensures var t1 := LocalCommand(t, "create-user " + name + " " + pin + " " + FormatInt(balance)).users;
            var login := Atm.World(Some(RemoteCommand(t1, "check-user " + name).out), map[name := pin + "\n"], pin + "\n");
            var s1 := Atm.Step(Atm.Anonymous, "begin-session " + name, login).session;
            var e := RemoteCommand(t1, "withdraw " + name + " " + FormatInt(amount));
            var r2 := Atm.Step(s1, "withdraw " + FormatInt(amount), Atm.World(Some(e.out), map[], ""));
            var s3 := Atm.Step(r2.session, "end-session", Atm.World(None, map[], "")).session;
            && s1 == Atm.Authenticated(name)
            && r2.printed == "$" + FormatInt(amount) + " dispensed\n"
            && Lookup(e.users, name) == Some(User(name, pin, balance - amount))
            && s3 == Atm.Anonymous
  {
    var t1 := LocalCommand(t, "create-user " + name + " " + pin + " " + FormatInt(balance)).users;
    CreatedAccountOpens(t, name, pin, balance);
    WithdrawThenLogOut(t1, name, pin, balance, amount);
  }
}
