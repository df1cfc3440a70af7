/**
  The bank's account table and its commands, as values: a table of 100 buckets,
  each a chain of user records, the bucket of a name given by the djb2 hash.
  Every function here returns the new table and the text the bank prints
  (local commands) or sends back to the ATM (remote commands). The class
  Bank.Bank runs the same operations in place and is proved against these.
 */
module Ledger {
  import opened CText

  const MaxUsers: nat := 100
  const MaxNameLength: nat := 250
  const PinLength: nat := 4

  /** A `User` record; its `next` link is its place in the bucket's chain. */
  datatype User = User(name: string, pin: string, balance: Int32)

  /** `users[MAX_USERS]`: one chain per bucket, the chain's head first. */
  type Table = t: seq<seq<User>> | |t| == MaxUsers witness seq(MaxUsers, _ => [])

  function EmptyTable(): (t: Table)
    ensures forall b :: 0 <= b < MaxUsers ==> t[b] == []
  {
    seq(MaxUsers, _ => [])
  }

  /** What a command leaves behind: the table and the message printed or sent. */
  datatype Effect = Effect(users: Table, out: string)

  // The replies `bank_send` sends to the ATM: no newline.
  const UsageBalance := "Usage: balance <user-name>"
  const UsageCheckUser := "Usage: check-user <user-name>"
  const UsageWithdraw := "Usage: withdraw <user-name> <amt>"
  const NoSuchUser := "No such user"
  const UserExists := "User exists"
  const InsufficientFunds := "Insufficient funds"
  const InvalidCommand := "Invalid command"

  // The lines the console commands print, each ending in a newline.
  const UsageCreateUser := "Usage: create-user <user-name> <pin> <balance>\n"
  const UsageDeposit := "Usage: deposit <user-name> <amt>\n"
  const UsageBalanceLine := "Usage: balance <user-name>\n"
  const NoSuchUserLine := "No such user\n"
  const TooRich := "Too rich for this program\n"
  const InvalidCommandLine := "Invalid command\n"

  // ---------------------------------------------------------------------------
  // hash_function

  /** The djb2 hash of s as the `unsigned long` loop computes it: start at 5381 and,
      for each character c, `hash = (hash << 5) + hash + c`, all modulo 2^64. */
  function Djb2(s: string): (h: nat)
    ensures h < Word64
  {
    if s == [] then 5381
    else (Djb2(s[..|s| - 1]) * 33 + SignedChar(s[|s| - 1])) % Word64
  }

  /** `hash_function(name)`: the bucket a name lives in. */
  function Bucket(name: string): (b: nat)
    ensures b < MaxUsers
  {
    Djb2(name) % MaxUsers
  }

  // ---------------------------------------------------------------------------
  // find_user

  /** The position in chain of the first record called name: the walk along `next`
      that stops at the first record whose name compares equal. */
  function Find(chain: seq<User>, name: string): (r: Option<nat>)
    ensures r.Some? ==> r.value < |chain| && chain[r.value].name == name
    ensures r.Some? ==> forall k :: 0 <= k < r.value ==> chain[k].name != name
    ensures r.None? <==> forall k :: 0 <= k < |chain| ==> chain[k].name != name
  {
    if chain == [] then None
    else if chain[0].name == name then Some(0)
    else match Find(chain[1..], name)
      case None => None
      case Some(k) => Some(k + 1)
  }

  /** `find_user(name)`: the record called name in name's bucket, if there is one. */
  function Lookup(t: Table, name: string): (r: Option<User>)
    ensures r.Some? ==> r.value.name == name
  {
    var chain := t[Bucket(name)];
    match Find(chain, name)
    case None => None
    case Some(k) => Some(chain[k])
  }

  /** `find_user` returns null exactly when no record in name's bucket has that name,
      and otherwise a record of that bucket. */
  lemma LookupNone(t: Table, name: string)
    ensures Lookup(t, name).None? <==> forall u :: u in t[Bucket(name)] ==> u.name != name
    ensures Lookup(t, name).Some? ==> Lookup(t, name).value in t[Bucket(name)]
  {
  }

  /** The table with the balance of the record at position k of bucket b replaced. */
  function UpdateBalance(t: Table, b: nat, k: nat, balance: Int32): (r: Table)
    requires b < MaxUsers && k < |t[b]|
    ensures |r[b]| == |t[b]| && r[b][k] == t[b][k].(balance := balance)
  {
    t[b := t[b][k := t[b][k].(balance := balance)]]
  }

  /** The invariant of the table: every record sits in its name's bucket, names are
      unique within a bucket (hence in the table), names have at most 250 characters,
      PINs exactly 4, and balances are never negative. */
  ghost predicate ValidTable(t: Table)
  {
    && (forall b, k :: 0 <= b < MaxUsers && 0 <= k < |t[b]| ==> ValidRecord(t[b][k], b))
    && (forall b, k, l :: 0 <= b < MaxUsers && 0 <= k < l < |t[b]| ==> t[b][k].name != t[b][l].name)
  }

  ghost predicate ValidRecord(u: User, b: nat)
  {
    Bucket(u.name) == b && |u.name| <= MaxNameLength && |u.pin| == PinLength && u.balance >= 0
  }

  // ---------------------------------------------------------------------------
  // create_user

  /** The checks `create_user` makes before inserting: the arguments and no duplicate. */
  predicate CreateArgsOk(name: string, pin: string, balance: Int32)
  {
    balance >= 0 && |name| <= MaxNameLength && |pin| == PinLength
  }

  /** `create_user(name, pin, balance)`: reject bad arguments, then a duplicate name,
      otherwise prepend the new record to its bucket. The card file it also writes
      is not part of this model. */
  function CreateUser(t: Table, name: string, pin: string, balance: Int32): (r: Effect)
    ensures !CreateArgsOk(name, pin, balance) ==> r == Effect(t, UsageCreateUser)
    ensures CreateArgsOk(name, pin, balance) && Lookup(t, name).Some? ==>
              r == Effect(t, "Error: user " + name + " already exists\n")
    ensures CreateArgsOk(name, pin, balance) && Lookup(t, name).None? ==>
              Lookup(r.users, name) == Some(User(name, pin, balance))
  {
    if !CreateArgsOk(name, pin, balance) then Effect(t, UsageCreateUser)
    else if Lookup(t, name).Some? then Effect(t, "Error: user " + name + " already exists\n")
    else
      var b := Bucket(name);
      Effect(t[b := [User(name, pin, balance)] + t[b]], "Created user " + name + "\n")
  }

  // ---------------------------------------------------------------------------
  // deposit and check_balance

  /** When `deposit` changes a balance: a non-negative amount, a known user, and a
      sum that fits in an `int`. */
  predicate DepositAccepted(t: Table, name: string, amount: Int32)
  {
    amount >= 0 && Lookup(t, name).Some? && Lookup(t, name).value.balance + amount <= MaxInt32
  }

  /** `deposit(name, amount)`. The overflow test is the C one, `balance + amount < balance`
      evaluated with wrap-around; DepositRefused and DepositCredited state what it decides. */
  function Deposit(t: Table, name: string, amount: Int32): (r: Effect)
    ensures !DepositAccepted(t, name, amount) ==> r.users == t
  {
    if amount < 0 then Effect(t, UsageDeposit)
    else
      var b := Bucket(name);
      match Find(t[b], name)
      case None => Effect(t, NoSuchUserLine)
      case Some(k) =>
        var u := t[b][k];
        OverflowTest(u.balance, amount);
        if AddWrap32(u.balance, amount) < u.balance then Effect(t, TooRich)
        else
          Effect(UpdateBalance(t, b, k, u.balance + amount),
                 "$" + FormatInt(amount) + " added to " + name + "'s account\n")
  }

  /** `check_balance(name)`: the message it prints. */
  function CheckBalance(t: Table, name: string): (out: string)
    ensures Lookup(t, name).None? <==> out == NoSuchUserLine
    ensures Lookup(t, name).Some? ==> out == "$" + FormatInt(Lookup(t, name).value.balance) + "\n"
  {
    match Lookup(t, name)
    case None => NoSuchUserLine
    case Some(u) =>
      assert ("$" + FormatInt(u.balance) + "\n")[0] == '$';
      "$" + FormatInt(u.balance) + "\n"
  }

  // ---------------------------------------------------------------------------
  // bank_process_remote_command

  /** The withdraw branch of the remote dispatcher once its arguments are read:
      a negative amount gets the usage reply, then an unknown user, then a balance
      below the amount; otherwise the balance drops by the amount. WithdrawRefused
      and WithdrawDebited state what it decides. */
  function Withdraw(t: Table, name: string, amount: Int32): (r: Effect)
    ensures r.users != t ==> amount >= 0 && Lookup(t, name).Some? && Lookup(t, name).value.balance >= amount
  {
    if amount < 0 then Effect(t, UsageWithdraw)
    else
      var b := Bucket(name);
      match Find(t[b], name)
      case None => Effect(t, NoSuchUser)
      case Some(k) =>
        var u := t[b][k];
        if u.balance < amount then Effect(t, InsufficientFunds)
        else Effect(UpdateBalance(t, b, k, u.balance - amount), "$" + FormatInt(amount) + " dispensed")
  }

  /** `sscanf(command, "%*s %250s %d", name, &amount)`. */
  function NameAmountArgs(command: string): (r: Option<(string, Int32)>)
    ensures r.Some? ==> 0 < |r.value.0| <= MaxNameLength
  {
    match ScanField(command, 0, 0)
    case None => None
    case Some((_, e1)) =>
      match ScanField(command, e1, MaxNameLength)
      case None => None
      case Some((name, e2)) =>
        match ScanInt(command, e2)
        case None => None
        case Some((amount, _)) => Some((name, amount))
  }

  /** `sscanf(command, "%*s %250s %4s %d", name, pin, &amount)`. */
  function CreateUserArgs(command: string): (r: Option<(string, string, Int32)>)
    ensures r.Some? ==> 0 < |r.value.0| <= MaxNameLength && 0 < |r.value.1| <= PinLength
  {
    match ScanField(command, 0, 0)
    case None => None
    case Some((_, e1)) =>
      match ScanField(command, e1, MaxNameLength)
      case None => None
      case Some((name, e2)) =>
        match ScanField(command, e2, PinLength)
        case None => None
        case Some((pin, e3)) =>
          match ScanInt(command, e3)
          case None => None
          case Some((amount, _)) => Some((name, pin, amount))
  }

  /** The verb `sscanf(command, "%s", cmd)` reads, or "" when the command is blank
      (C then leaves `cmd` uninitialised; the model lets no verb match). */
  function Verb(command: string): (v: string)
    ensures v == "" <==> ScanField(command, 0, 0).None?
  {
    match ScanField(command, 0, 0)
    case None => ""
    case Some((v, _)) => v
  }

  /** `bank_process_remote_command`: the commands an ATM may send. The reply is
      what `bank_send` sends back. */
  function RemoteCommand(t: Table, command: string): (r: Effect)
    ensures Verb(command) !in {"check-user", "balance", "withdraw"} ==> r == Effect(t, InvalidCommand)
    ensures Verb(command) != "withdraw" ==> r.users == t
  {
    var verb := Verb(command);
    if verb == "check-user" then
      match SecondField(command, MaxNameLength)
      case None => Effect(t, UsageCheckUser)
      case Some(name) => Effect(t, if Lookup(t, name).Some? then UserExists else NoSuchUser)
    else if verb == "balance" then
      match SecondField(command, MaxNameLength)
      case None => Effect(t, UsageBalance)
      case Some(name) =>
        match Lookup(t, name)
        case None => Effect(t, NoSuchUser)
        case Some(u) => Effect(t, "$" + FormatInt(u.balance))
    else if verb == "withdraw" then
      match NameAmountArgs(command)
      case None => Effect(t, UsageWithdraw)
      case Some((name, amount)) => Withdraw(t, name, amount)
    else Effect(t, InvalidCommand)
  }

  // ---------------------------------------------------------------------------
  // bank_process_local_command

  /** `bank_process_local_command`: the operator's commands at the bank's console.
      The result's message is what the bank prints. */
  function LocalCommand(t: Table, command: string): (r: Effect)
    ensures Verb(command) !in {"create-user", "deposit", "balance"} ==> r == Effect(t, InvalidCommandLine)
    ensures Verb(command) == "balance" ==> r.users == t
  {
    var verb := Verb(command);
    if verb == "create-user" then
      match CreateUserArgs(command)
      case None => Effect(t, UsageCreateUser)
      case Some((name, pin, amount)) => CreateUser(t, name, pin, amount)
    else if verb == "deposit" then
      match NameAmountArgs(command)
      case None => Effect(t, UsageDeposit)
      case Some((name, amount)) => Deposit(t, name, amount)
    else if verb == "balance" then
      match SecondField(command, MaxNameLength)
      case None => Effect(t, UsageBalanceLine)
      case Some(name) => Effect(t, CheckBalance(t, name))
    else Effect(t, InvalidCommandLine)
  }

  // ---------------------------------------------------------------------------
  // Lemmas

  /** Changing a record's balance in its place keeps the walk to every name the same. */
  lemma {:induction false} FindUpdated(chain: seq<User>, k: nat, u: User, name: string)
    requires k < |chain| && u.name == chain[k].name
    ensures Find(chain[k := u], name) == Find(chain, name)
  {
    if k > 0 && chain[0].name != name {
      assert chain[k := u][1..] == chain[1..][k - 1 := u];
      FindUpdated(chain[1..], k - 1, u, name);
    }
  }

  /** After a balance update, the updated name finds the updated record. */
  lemma LookupUpdated(t: Table, b: nat, k: nat, balance: Int32)
    requires b < MaxUsers && k < |t[b]|
    requires Bucket(t[b][k].name) == b && Find(t[b], t[b][k].name) == Some(k)
    ensures Lookup(UpdateBalance(t, b, k, balance), t[b][k].name) == Some(t[b][k].(balance := balance))
  {
    FindUpdated(t[b], k, t[b][k].(balance := balance), t[b][k].name);
  }

  /** After a balance update, every other name finds what it found before. */
  lemma LookupOtherUpdated(t: Table, b: nat, k: nat, balance: Int32, n: string)
    requires b < MaxUsers && k < |t[b]| && n != t[b][k].name
    ensures Lookup(UpdateBalance(t, b, k, balance), n) == Lookup(t, n)
  {
    var u := t[b][k].(balance := balance);
    if Bucket(n) == b {
      FindUpdated(t[b], k, u, n);
    }
  }

  /** A balance update at the record `find_user` finds for name changes what name
      finds, and what no other name finds. */
  lemma UpdatedLookups(t: Table, name: string, b: nat, k: nat, balance: Int32)
    requires b == Bucket(name) && Find(t[b], name) == Some(k)
    ensures Lookup(t, name) == Some(t[b][k])
    ensures Lookup(UpdateBalance(t, b, k, balance), name) == Some(t[b][k].(balance := balance))
    ensures forall n :: n != name ==> Lookup(UpdateBalance(t, b, k, balance), n) == Lookup(t, n)
  {
    LookupUpdated(t, b, k, balance);
    forall n | n != name
      ensures Lookup(UpdateBalance(t, b, k, balance), n) == Lookup(t, n)
    {
      LookupOtherUpdated(t, b, k, balance, n);
    }
  }

  /** An accepted deposit writes the raised balance into the record `find_user` finds. */
  lemma DepositAt(t: Table, name: string, amount: Int32, b: nat, k: nat)
    requires b == Bucket(name) && Find(t[b], name) == Some(k)
    requires amount >= 0 && t[b][k].balance + amount <= MaxInt32
    ensures Deposit(t, name, amount) ==
              Effect(UpdateBalance(t, b, k, t[b][k].balance + amount),
                     "$" + FormatInt(amount) + " added to " + name + "'s account\n")
  {
    OverflowTest(t[b][k].balance, amount);
  }

  /** A covered withdrawal writes the lowered balance into the record `find_user` finds. */
  lemma WithdrawAt(t: Table, name: string, amount: Int32, b: nat, k: nat)
    requires b == Bucket(name) && Find(t[b], name) == Some(k)
    requires amount >= 0 && t[b][k].balance >= amount
    ensures Withdraw(t, name, amount) ==
              Effect(UpdateBalance(t, b, k, t[b][k].balance - amount), "$" + FormatInt(amount) + " dispensed")
  {
  }

  /** What `deposit` refuses: the usage message for a negative amount, "No such user"
      for an unknown name, "Too rich for this program" exactly when the sum would not
      fit in an `int`; none of them changes the table. */
  lemma DepositRefused(t: Table, name: string, amount: Int32)
    ensures var r := Deposit(t, name, amount);
      && (amount < 0 ==> r == Effect(t, UsageDeposit))
      && (amount >= 0 && Lookup(t, name).None? ==> r == Effect(t, NoSuchUserLine))
      && (amount >= 0 && Lookup(t, name).Some? && Lookup(t, name).value.balance + amount > MaxInt32 ==>
            r == Effect(t, TooRich))
  {
    if amount >= 0 && Lookup(t, name).Some? {
      OverflowTest(Lookup(t, name).value.balance, amount);
    }
  }

  /** An accepted deposit raises that user's balance, and no other account, by the
      amount, and reports it. */
  lemma DepositCredited(t: Table, name: string, amount: Int32)
    requires DepositAccepted(t, name, amount)
    ensures var u := Lookup(t, name).value;
            Lookup(Deposit(t, name, amount).users, name) == Some(u.(balance := u.balance + amount))
    ensures forall n :: n != name ==> Lookup(Deposit(t, name, amount).users, n) == Lookup(t, n)
    ensures Deposit(t, name, amount).out == "$" + FormatInt(amount) + " added to " + name + "'s account\n"
  {
    var b := Bucket(name);
    var k := Find(t[b], name).value;
    var balance := t[b][k].balance + amount;
    var t' := UpdateBalance(t, b, k, balance);
    assert Deposit(t, name, amount) == Effect(t', "$" + FormatInt(amount) + " added to " + name + "'s account\n") by {
      DepositAt(t, name, amount, b, k);
    }
    UpdatedLookups(t, name, b, k, balance);
  }

  /** What the remote `withdraw` refuses, changing nothing: the usage reply for a
      negative amount, "No such user" for an unknown name, "Insufficient funds" when
      the balance is below the amount. */
  lemma WithdrawRefused(t: Table, name: string, amount: Int32)
    ensures var r := Withdraw(t, name, amount);
      && (amount < 0 ==> r == Effect(t, UsageWithdraw))
      && (amount >= 0 && Lookup(t, name).None? ==> r == Effect(t, NoSuchUser))
      && (amount >= 0 && Lookup(t, name).Some? && Lookup(t, name).value.balance < amount ==>
            r == Effect(t, InsufficientFunds))
  {
  }

  /** A withdrawal the balance covers lowers that user's balance, and no other
      account, by exactly the amount, and replies "$<amount> dispensed". */
  lemma WithdrawDebited(t: Table, name: string, amount: Int32)
    requires amount >= 0 && Lookup(t, name).Some? && Lookup(t, name).value.balance >= amount
    ensures var u := Lookup(t, name).value;
            Lookup(Withdraw(t, name, amount).users, name) == Some(u.(balance := u.balance - amount))
    ensures forall n :: n != name ==> Lookup(Withdraw(t, name, amount).users, n) == Lookup(t, n)
    ensures Withdraw(t, name, amount).out == "$" + FormatInt(amount) + " dispensed"
  {
    var b := Bucket(name);
    var k := Find(t[b], name).value;
    var t' := UpdateBalance(t, b, k, t[b][k].balance - amount);
    WithdrawAt(t, name, amount, b, k);
    UpdatedLookups(t, name, b, k, t[b][k].balance - amount);
    assert Withdraw(t, name, amount).users == t';
  }

  /** A successful creation leaves every other name's lookup as it was, and leaves
      every bucket but the new name's untouched. */
  lemma CreateUserKeepsOthers(t: Table, name: string, pin: string, balance: Int32)
    requires CreateArgsOk(name, pin, balance) && Lookup(t, name).None?
    ensures var r := CreateUser(t, name, pin, balance);
            && r.users[Bucket(name)] == [User(name, pin, balance)] + t[Bucket(name)]
            && r.out == "Created user " + name + "\n"
            && (forall b :: 0 <= b < MaxUsers && b != Bucket(name) ==> r.users[b] == t[b])
            && (forall n :: n != name ==> Lookup(r.users, n) == Lookup(t, n))
  {
    var r := CreateUser(t, name, pin, balance);
    var b := Bucket(name);
    forall n | n != name
      ensures Lookup(r.users, n) == Lookup(t, n)
    {
      if Bucket(n) == b {
        assert r.users[b][1..] == t[b];
      }
    }
  }

  /** Creating a name twice: the second attempt is refused and changes nothing. */
  lemma CreateUserTwice(t: Table, name: string, pin: string, balance: Int32,
                        pin': string, balance': Int32)
    requires CreateArgsOk(name, pin, balance) && Lookup(t, name).None?
    requires CreateArgsOk(name, pin', balance')
    ensures var t1 := CreateUser(t, name, pin, balance).users;
            CreateUser(t1, name, pin', balance') == Effect(t1, "Error: user " + name + " already exists\n")
  {
  }

  lemma CreateUserPreservesValid(t: Table, name: string, pin: string, balance: Int32)
    requires ValidTable(t)
    ensures ValidTable(CreateUser(t, name, pin, balance).users)
  {
    if CreateArgsOk(name, pin, balance) && Lookup(t, name).None? {
      var t' := CreateUser(t, name, pin, balance).users;
      var b := Bucket(name);
      assert t'[b] == [User(name, pin, balance)] + t[b];
      forall k, l | 0 <= k < l < |t'[b]| ensures t'[b][k].name != t'[b][l].name {
        if k == 0 {
          assert t'[b][l] in t[b];
        }
      }
    }
  }

  lemma UpdateBalancePreservesValid(t: Table, b: nat, k: nat, balance: Int32)
    requires ValidTable(t) && b < MaxUsers && k < |t[b]| && balance >= 0
    ensures ValidTable(UpdateBalance(t, b, k, balance))
  {
  }

  lemma DepositPreservesValid(t: Table, name: string, amount: Int32)
    requires ValidTable(t)
    ensures ValidTable(Deposit(t, name, amount).users)
  {
    if amount >= 0 {
      var b := Bucket(name);
      match Find(t[b], name)
      case None =>
      case Some(k) =>
        var u := t[b][k];
        if u.balance + amount <= MaxInt32 {
          OverflowTest(u.balance, amount);
          UpdateBalancePreservesValid(t, b, k, u.balance + amount);
        }
    }
  }

  lemma WithdrawPreservesValid(t: Table, name: string, amount: Int32)
    requires ValidTable(t)
    ensures ValidTable(Withdraw(t, name, amount).users)
  {
    if amount >= 0 {
      var b := Bucket(name);
      match Find(t[b], name)
      case None =>
      case Some(k) =>
        var u := t[b][k];
        if u.balance >= amount {
          UpdateBalancePreservesValid(t, b, k, u.balance - amount);
        }
    }
  }

  /** No remote command ever breaks the table's invariant: in particular no balance
      becomes negative. */
  lemma RemoteCommandPreservesValid(t: Table, command: string)
    requires ValidTable(t)
    ensures ValidTable(RemoteCommand(t, command).users)
  {
    match NameAmountArgs(command)
    case None =>
    case Some((name, amount)) => WithdrawPreservesValid(t, name, amount);
  }

  lemma LocalCommandPreservesValid(t: Table, command: string)
    requires ValidTable(t)
    ensures ValidTable(LocalCommand(t, command).users)
  {
    var verb := Verb(command);
    if verb == "create-user" {
      match CreateUserArgs(command)
      case None =>
      case Some((name, pin, amount)) => CreateUserPreservesValid(t, name, pin, amount);
    } else if verb == "deposit" {
      match NameAmountArgs(command)
      case None =>
      case Some((name, amount)) => DepositPreservesValid(t, name, amount);
    }
  }

  /** Writing a record's old balance back undoes a balance update. */
  lemma UpdateBalanceRestored(t: Table, b: nat, k: nat, balance: Int32)
    requires b < MaxUsers && k < |t[b]|
    ensures UpdateBalance(UpdateBalance(t, b, k, balance), b, k, t[b][k].balance) == t
  {
    var t1 := UpdateBalance(t, b, k, balance);
    assert t1[b][k].(balance := t[b][k].balance) == t[b][k];
    assert t1[b][k := t[b][k]] == t[b];
  }

  /** After a balance update the walk to the name stops at the same, updated, record. */
  lemma FoundAfterUpdate(t: Table, name: string, b: nat, k: nat, balance: Int32)
    requires b < MaxUsers && Find(t[b], name) == Some(k)
    ensures Find(UpdateBalance(t, b, k, balance)[b], name) == Some(k)
    ensures UpdateBalance(t, b, k, balance)[b][k] == t[b][k].(balance := balance)
  {
    FindUpdated(t[b], k, t[b][k].(balance := balance), name);
  }

  /** Withdrawing the amount just credited writes the old balance back. */
  lemma WithdrawUndoesCredit(t: Table, name: string, amount: Int32, b: nat, k: nat)
    requires b == Bucket(name) && Find(t[b], name) == Some(k)
    requires amount >= 0 && 0 <= t[b][k].balance && t[b][k].balance + amount <= MaxInt32
    ensures Withdraw(UpdateBalance(t, b, k, t[b][k].balance + amount), name, amount) ==
              Effect(t, "$" + FormatInt(amount) + " dispensed")
  {
    var t1 := UpdateBalance(t, b, k, t[b][k].balance + amount);
    FoundAfterUpdate(t, name, b, k, t[b][k].balance + amount);
    WithdrawAt(t1, name, amount, b, k);
    UpdateBalanceRestored(t, b, k, t[b][k].balance + amount);
  }

  /** A deposit followed by a withdrawal of the same amount restores the table
      exactly, for any account whose balance is not negative (as ValidTable keeps
      every balance). */
  lemma DepositThenWithdraw(t: Table, name: string, amount: Int32)
    requires DepositAccepted(t, name, amount) && Lookup(t, name).value.balance >= 0
    ensures var t1 := Deposit(t, name, amount).users;
            Withdraw(t1, name, amount) == Effect(t, "$" + FormatInt(amount) + " dispensed")
  {
    var b := Bucket(name);
    var k := Find(t[b], name).value;
    DepositAt(t, name, amount, b, k);
    WithdrawUndoesCredit(t, name, amount, b, k);
  }

  /** The ATM-facing dispatcher never runs the operator's commands: `create-user` and
      `deposit` arriving over the network are answered "Invalid command" and change nothing. */
  lemma RemoteRefusesLocalVerbs(t: Table, command: string)
    requires Verb(command) == "create-user" || Verb(command) == "deposit"
    ensures RemoteCommand(t, command) == Effect(t, InvalidCommand)
  {
  }

  /** Remote `check-user` answers "User exists" exactly when the lookup succeeds. */
  lemma RemoteCheckUser(t: Table, command: string, name: string)
    requires Verb(command) == "check-user" && SecondField(command, MaxNameLength) == Some(name)
    ensures RemoteCommand(t, command).users == t
    ensures RemoteCommand(t, command).out == UserExists <==> Lookup(t, name).Some?
    ensures RemoteCommand(t, command).out == NoSuchUser <==> Lookup(t, name).None?
  {
  }

  /** Remote `balance` changes nothing and replies with the balance `find_user`
      finds, or "No such user". */
  lemma RemoteBalance(t: Table, command: string, name: string)
    requires Verb(command) == "balance" && SecondField(command, MaxNameLength) == Some(name)
    ensures RemoteCommand(t, command).users == t
    ensures Lookup(t, name).None? ==> RemoteCommand(t, command).out == NoSuchUser
    ensures Lookup(t, name).Some? ==> RemoteCommand(t, command).out == "$" + FormatInt(Lookup(t, name).value.balance)
  {
  }

  /** Remote `withdraw` whose arguments do not scan, or whose amount is negative,
      gets the usage reply and changes nothing. */
  lemma RemoteWithdrawUsage(t: Table, command: string)
    requires Verb(command) == "withdraw"
    requires NameAmountArgs(command).None? || NameAmountArgs(command).value.1 < 0
    ensures RemoteCommand(t, command) == Effect(t, UsageWithdraw)
  {
  }
}
