/**
  The bank process: the account table `users[MAX_USERS]` updated in place, the
  lookups that walk it, and the two command dispatchers. Each operation is proved
  to leave the table, and to produce the message, that the value-level definitions
  in Ledger give, and to keep the table's invariant.
 */
module Bank {
  import opened CText
  import opened Ledger

  /** `hash_function(str)`: the djb2 loop over the characters, reduced to a bucket index. */
  method HashFunction(str: string) returns (index: nat)
    ensures index < MaxUsers
    ensures index == Bucket(str)
  {
    var hash: nat := 5381;
    var i := 0;
    while i < |str|
      invariant i <= |str|
      invariant hash == Djb2(str[..i])
    {
      assert str[..i + 1][..i] == str[..i];
      hash := (hash * 33 + SignedChar(str[i])) % Word64;
      i := i + 1;
    }
    assert str[..i] == str;
    index := hash % MaxUsers;
  }

  /** The place of a record in the table: it stands for the `User *` that
      `find_user` returns, through which `deposit` and `withdraw` change a balance. */
  datatype Ref = Ref(bucket: nat, position: nat)

  class Bank {
    /** `users[MAX_USERS]`: bucket b holds the chain `users[b]`, head first. */
    var users: array<seq<User>>

    ghost predicate Valid()
      reads this, users
    {
      users.Length == MaxUsers && ValidTable(users[..])
    }

    /** The table as a value. */
    ghost function Accounts(): Table
      reads this, users
      requires Valid()
    {
      users[..]
    }

    /** The table as the program starts: every bucket empty. */
    constructor ()
      ensures Valid() && fresh(users)
      ensures Accounts() == EmptyTable()
    {
      users := new seq<User>[MaxUsers](_ => []);
      new;
      assert users[..] == EmptyTable();
    }

    /** `find_user(name)`: walk name's chain to the first record with that name. */
    method FindUser(name: string) returns (r: Option<Ref>)
      requires Valid()
      ensures r.None? <==> Lookup(Accounts(), name).None?
      ensures r.Some? ==>
                && r.value.bucket == Bucket(name)
                && Find(users[Bucket(name)], name) == Some(r.value.position)
                && Lookup(Accounts(), name) == Some(users[Bucket(name)][r.value.position])
                && users[Bucket(name)][r.value.position].name == name
      ensures r.None? ==> forall k :: 0 <= k < |users[Bucket(name)]| ==> users[Bucket(name)][k].name != name
    {
      var index := HashFunction(name);
      var chain := users[index];
      var k := 0;
      while k < |chain| && chain[k].name != name
        invariant k <= |chain|
        invariant forall j :: 0 <= j < k ==> chain[j].name != name
      {
        k := k + 1;
      }
      if k < |chain| {
        r := Some(Ref(index, k));
      } else {
        r := None;
      }
    }

    /** `create_user(name, pin, balance)`, with the card file left out. */
    method CreateUser(name: string, pin: string, balance: Int32) returns (out: string)
      requires Valid()
      modifies users
      ensures Valid()
      ensures Effect(Accounts(), out) == Ledger.CreateUser(old(Accounts()), name, pin, balance)
    {
      CreateUserPreservesValid(Accounts(), name, pin, balance);
      if balance < 0 || |name| > MaxNameLength || |pin| != PinLength {
        return UsageCreateUser;
      }
      var found := FindUser(name);
      if found.Some? {
        return "Error: user " + name + " already exists\n";
      }
      var index := HashFunction(name);
      users[index] := [User(name, pin, balance)] + users[index];
      out := "Created user " + name + "\n";
    }

    /** `deposit(name, amount)`: the new balance is written through the record found. */
    method Deposit(name: string, amount: Int32) returns (out: string)
      requires Valid()
      modifies users
      ensures Valid()
      ensures Effect(Accounts(), out) == Ledger.Deposit(old(Accounts()), name, amount)
    {
      ghost var t := Accounts();
      DepositPreservesValid(t, name, amount);
      if amount < 0 {
        return UsageDeposit;
      }
      var found := FindUser(name);
      if found.None? {
        return NoSuchUserLine;
      }
      var b, k := found.value.bucket, found.value.position;
      var user := users[b][k];
      OverflowTest(user.balance, amount);
      if AddWrap32(user.balance, amount) < user.balance {
        return TooRich;
      }
      users[b] := users[b][k := user.(balance := user.balance + amount)];
      out := "$" + FormatInt(amount) + " added to " + name + "'s account\n";
      assert users[..] == UpdateBalance(t, b, k, user.balance + amount);
      assert Ledger.Deposit(t, name, amount) == Effect(users[..], out);
    }

    /** `check_balance(name)`: reads the table only. */
    method CheckBalance(name: string) returns (out: string)
      requires Valid()
      ensures out == Ledger.CheckBalance(Accounts(), name)
    {
      var found := FindUser(name);
      if found.None? {
        return NoSuchUserLine;
      }
      out := "$" + FormatInt(users[found.value.bucket][found.value.position].balance) + "\n";
    }

    /** `bank_process_remote_command(command)`: the reply returned is the one `bank_send` sends. */
    method ProcessRemoteCommand(command: string) returns (reply: string)
      requires Valid()
      modifies users
      ensures Valid()
      ensures Effect(Accounts(), reply) == RemoteCommand(old(Accounts()), command)
    {
      RemoteCommandPreservesValid(Accounts(), command);
      var verb := Verb(command);
      if verb == "check-user" {
        match SecondField(command, MaxNameLength)
        case None =>
          reply := UsageCheckUser;
        case Some(name) =>
          var account := FindUser(name);
          reply := if account.None? then NoSuchUser else UserExists;
      } else if verb == "balance" {
        match SecondField(command, MaxNameLength)
        case None =>
          reply := UsageBalance;
        case Some(name) =>
          var account := FindUser(name);
          if account.None? {
            reply := NoSuchUser;
          } else {
            reply := "$" + FormatInt(users[account.value.bucket][account.value.position].balance);
          }
      } else if verb == "withdraw" {
        match NameAmountArgs(command)
        case None =>
          reply := UsageWithdraw;
        case Some((name, amount)) =>
          reply := Withdraw(name, amount);
      } else {
        reply := InvalidCommand;
      }
    }

    /** The withdraw branch of `bank_process_remote_command`, once its arguments are read. */
    method Withdraw(name: string, amount: Int32) returns (reply: string)
      requires Valid()
      modifies users
      ensures Valid()
      ensures Effect(Accounts(), reply) == Ledger.Withdraw(old(Accounts()), name, amount)
    {
      ghost var t := Accounts();
      WithdrawPreservesValid(t, name, amount);
      if amount < 0 {
        return UsageWithdraw;
      }
      var account := FindUser(name);
      if account.None? {
        return NoSuchUser;
      }
      var b, k := account.value.bucket, account.value.position;
      var user := users[b][k];
      if user.balance < amount {
        return InsufficientFunds;
      }
      users[b] := users[b][k := user.(balance := user.balance - amount)];
      reply := "$" + FormatInt(amount) + " dispensed";
      assert users[..] == UpdateBalance(t, b, k, user.balance - amount);
      assert Ledger.Withdraw(t, name, amount) == Effect(users[..], reply);
    }

    /** `bank_process_local_command(command)`: the operator's console; the result is what is printed. */
    method ProcessLocalCommand(command: string) returns (out: string)
      requires Valid()
      modifies users
      ensures Valid()
      ensures Effect(Accounts(), out) == LocalCommand(old(Accounts()), command)
    {
      var verb := Verb(command);
      if verb == "create-user" {
        match CreateUserArgs(command)
        case None =>
          out := UsageCreateUser;
        case Some((name, pin, amount)) =>
          out := CreateUser(name, pin, amount);
      } else if verb == "deposit" {
        match NameAmountArgs(command)
        case None =>
          out := UsageDeposit;
        case Some((name, amount)) =>
          out := Deposit(name, amount);
      } else if verb == "balance" {
        match SecondField(command, MaxNameLength)
        case None =>
          out := UsageBalanceLine;
        case Some(name) =>
          out := CheckBalance(name);
      } else {
        out := InvalidCommandLine;
      }
    }
  }
}
