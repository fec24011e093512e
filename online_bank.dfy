/**
 * The bank as the program keeps it: `User` objects whose balance and history
 * are updated in place, and a `Bank` holding the map from account number to
 * user and the account counter. Scanner input becomes parameters and printed
 * messages become outcome codes.
 */
module OnlineBank {
  import opened Options
  import opened BankLedger

  class User {
    const accountNumber: Int32
    const accountHolderName: string
    const password: string
    var balance: real
    const accountType: string
    var history: seq<Entry>

    /** A user starts with the header-only history. */
    constructor (accountNumber: Int32, accountHolderName: string, password: string, initialBalance: real, accountType: string)
      ensures Snapshot() == Account(accountNumber, accountHolderName, password, initialBalance, accountType, [])
    {
      this.accountNumber := accountNumber;
      this.accountHolderName := accountHolderName;
      this.password := password;
      this.balance := initialBalance;
      this.accountType := accountType;
      this.history := [];
    }

    /** The user's current value. */
    function Snapshot(): Account
      reads this
    {
      Account(accountNumber, accountHolderName, password, balance, accountType, history)
    }

    /** `addTransaction` */
    method AddTransaction(amount: real)
      modifies this
      ensures Snapshot() == Post(old(Snapshot()), amount)
    {
      balance := balance + amount;
      history := history + [Entry(amount, balance)];
    }

    /** `authenticate`: it reads the user and changes nothing. */
    function Authenticate(passwordAttempt: string): (ok: bool)
      reads this
      ensures ok <==> BankLedger.Authenticate(Snapshot(), passwordAttempt)
    {
      password == passwordAttempt
    }

    /** `clearTransactionHistory` */
    method ClearTransactionHistory()
      modifies this
      ensures Snapshot() == ClearHistory(old(Snapshot()))
    {
      history := [];
    }
  }

  /** The values of the users, key by key. */
  ghost function Snapshots(users: map<Int32, User>): Accounts
    reads users.Values
  {
    map k | k in users :: users[k].Snapshot()
  }

  /** When no user changed, the values are the same. */
  twostate lemma NoUserChanged(users: map<Int32, User>)
    requires forall k :: k in users ==> unchanged(users[k])
    ensures Snapshots(users) == old(Snapshots(users))
  {
  }

  /** Putting a user under a key puts its value under that key. */
  lemma PutUser(users: map<Int32, User>, n: Int32, user: User)
    ensures Snapshots(users[n := user]) == Snapshots(users)[n := user.Snapshot()]
  {
  }

  /** A map that agrees with `before` off `n` and holds `v` at `n` is `before` updated at `n`. */
  lemma UpdatedAt(before: Accounts, now: Accounts, n: Int32, v: Account)
    requires now.Keys == before.Keys && n in now && now[n] == v
    requires forall k :: k in before && k != n ==> now[k] == before[k]
    ensures now == before[n := v]
  {
  }

  class Bank {
    var accounts: map<Int32, User>
    var accountCounter: Int32

    /** The accounts as values. */
    ghost function Ledger(): Accounts
      reads this, accounts.Values
    {
      Snapshots(accounts)
    }

    /**
     * Every user sits under its own number, so no user object is shared by
     * two keys. That each history accounts for its balance is kept on the
     * values: the ledger operations preserve `WellFormed`, and each method
     * below leaves `Ledger()` as its ledger operation does.
     */
    ghost predicate Valid()
      reads this
    {
      forall k :: k in accounts ==> accounts[k].accountNumber == k
    }

    /** A bank made from the stored accounts, put in file order; the counter starts at 1000 regardless. */
    constructor (stored: seq<StoredAccount>)
      ensures Valid()
      ensures accountCounter == InitialCounter
      ensures Ledger() == Load(stored)
      ensures forall k :: k in accounts ==> fresh(accounts[k])
    {
      var users: map<Int32, User> := map[];
      var i := 0;
      while i < |stored|
        invariant 0 <= i <= |stored|
        invariant forall k :: k in users ==> users[k].accountNumber == k
        invariant Snapshots(users) == Load(stored[..i])
        invariant forall k :: k in users ==> fresh(users[k])
      {
        var s := stored[i];
        var user := new User(s.number, s.holder, s.password, s.balance, s.accountType);
        assert stored[..i + 1][..i] == stored[..i];
        assert Load(stored[..i + 1]) == Load(stored[..i])[s.number := Restore(s)];
        PutUser(users, s.number, user);
        users := users[s.number := user];
        i := i + 1;
      }
      assert stored[..i] == stored;
      accounts := users;
      accountCounter := InitialCounter;
    }

    /** `createAccount` with the holder's name, the account type and the password as parameters. */
    method CreateAccount(accountHolderName: string, accountType: string, password: string) returns (accountNumber: Int32)
      requires Valid()
      modifies this
      ensures Valid()
      ensures accountCounter == accountNumber
      ensures (accountNumber, Ledger()) ==
                BankLedger.CreateAccount(old(Ledger()), old(accountCounter), accountHolderName, accountType, password)
      ensures accountNumber in accounts && fresh(accounts[accountNumber])
      ensures forall k :: k in accounts && k != accountNumber ==> k in old(accounts) && accounts[k] == old(accounts)[k]
    {
      accountCounter := NextAccountNumber(accountCounter);
      accountNumber := accountCounter;
      var initialBalance := if JavaStrings.EqualsIgnoreCase(accountType, "savings") then SavingsOpeningBalance else 0.0;
      var user := new User(accountNumber, accountHolderName, password, initialBalance, accountType);
      NoUserChanged(accounts);
      PutUser(accounts, accountNumber, user);
      accounts := accounts[accountNumber := user];
    }

    /** The authentication part of `login`, with the number and the password as parameters. */
    method Login(accountNumber: Int32, passwordAttempt: string) returns (outcome: Outcome)
      requires Valid()
      ensures outcome == BankLedger.Login(Ledger(), accountNumber, passwordAttempt)
    {
      if accountNumber !in accounts {
        return AccountNotFound;
      }
      var ok := accounts[accountNumber].Authenticate(passwordAttempt);
      outcome := if ok then Ok else WrongPassword;
    }

    /** `viewAccountInfo`: returns what is shown, then clears the shown history. */
    method ViewAccountInfo(accountNumber: Int32) returns (shown: Option<Account>)
      requires Valid()
      modifies accounts.Values
      ensures Valid() && unchanged(this)
      ensures (shown, Ledger()) == BankLedger.ViewAccountInfo(old(Ledger()), accountNumber)
    {
      if accountNumber !in accounts {
        return None;
      }
      var user := accounts[accountNumber];
      shown := Some(user.Snapshot());
      ghost var before := Ledger();
      assert forall k :: k in accounts && k != accountNumber ==> accounts[k] != user;
      ghost var after := before[accountNumber := ClearHistory(before[accountNumber])];
      assert BankLedger.ViewAccountInfo(before, accountNumber) == (Some(before[accountNumber]), after);
      user.ClearTransactionHistory();
      UpdatedAt(before, Ledger(), accountNumber, user.Snapshot());
    }

    /** `addTransaction` on the user under `accountNumber`; the other users are untouched. */
    method PostTo(accountNumber: Int32, amount: real)
      requires Valid() && accountNumber in accounts
      modifies accounts.Values
      ensures Valid() && unchanged(this)
      ensures Ledger() == old(Ledger())[accountNumber := Post(old(Ledger())[accountNumber], amount)]
    {
      var user := accounts[accountNumber];
      ghost var before := Ledger();
      assert forall k :: k in accounts && k != accountNumber ==> accounts[k] != user;
      ghost var after := before[accountNumber := Post(before[accountNumber], amount)];
      user.AddTransaction(amount);
      UpdatedAt(before, Ledger(), accountNumber, user.Snapshot());
    }

    /** `applyForLoan` with the password attempt as a parameter. */
    method ApplyForLoan(accountNumber: Int32, loanAmount: real, passwordAttempt: string) returns (outcome: Outcome)
      requires Valid()
      modifies accounts.Values
      ensures Valid() && unchanged(this)
      ensures (outcome, Ledger()) == BankLedger.ApplyForLoan(old(Ledger()), accountNumber, loanAmount, passwordAttempt)
    {
      if accountNumber !in accounts {
        return AccountNotFound;
      }
      if !accounts[accountNumber].Authenticate(passwordAttempt) {
        return WrongPassword;
      }
      PostTo(accountNumber, loanAmount);
      outcome := Ok;
    }

    /** `withdraw` with the password attempt as a parameter. */
    method Withdraw(accountNumber: Int32, amount: real, passwordAttempt: string) returns (outcome: Outcome)
      requires Valid()
      modifies accounts.Values
      ensures Valid() && unchanged(this)
      ensures (outcome, Ledger()) == BankLedger.Withdraw(old(Ledger()), accountNumber, amount, passwordAttempt)
    {
      if accountNumber !in accounts {
        return AccountNotFound;
      }
      var user := accounts[accountNumber];
      ghost var before := Ledger();
      assert before[accountNumber] == user.Snapshot();
      WithdrawCases(before, accountNumber, amount, passwordAttempt);
      if !user.Authenticate(passwordAttempt) {
        return WrongPassword;
      }
      if !(user.balance >= amount) {
        return InsufficientFunds;
      }
      PostTo(accountNumber, -amount);
      outcome := Ok;
    }

    /** `credit`: no password is asked. */
    method Credit(accountNumber: Int32, amount: real) returns (outcome: Outcome)
      requires Valid()
      modifies accounts.Values
      ensures Valid() && unchanged(this)
      ensures (outcome, Ledger()) == BankLedger.Credit(old(Ledger()), accountNumber, amount)
    {
      if accountNumber !in accounts {
        return AccountNotFound;
      }
      PostTo(accountNumber, amount);
      outcome := Ok;
    }
  }

  /**
   * The menu's create-then-withdraw sequence on a bank without stored
   * accounts: a "Savings" account is opened as 1001 with 500, a withdrawal
   * of 200 succeeds and leaves 300, and one of 1000 is then refused.
   */
  method SavingsSession(holder: string, password: string)
    returns (accountNumber: Int32, first: Outcome, second: Outcome, balance: real)
    ensures accountNumber == 1001
    ensures first == Ok && second == InsufficientFunds && balance == 300.0
  {
    var bank := new Bank([]);
    accountNumber := bank.CreateAccount(holder, "Savings", password);
    first := bank.Withdraw(accountNumber, 200.0, password);
    second := bank.Withdraw(accountNumber, 1000.0, password);
    SavingsScenario(holder, password);
    assert Load([]) == map[];
    balance := bank.accounts[accountNumber].balance;
    assert bank.Ledger()[accountNumber] == bank.accounts[accountNumber].Snapshot();
  }

  /** Crediting straight after start-up succeeds exactly for the numbers the stored records carry. */
  method CreditAfterLoad(stored: seq<StoredAccount>, accountNumber: Int32, amount: real) returns (outcome: Outcome)
    ensures outcome == Ok <==> exists i :: 0 <= i < |stored| && stored[i].number == accountNumber
    ensures outcome != Ok ==> outcome == AccountNotFound
  {
    var bank := new Bank(stored);
    outcome := bank.Credit(accountNumber, amount);
    LoadKeys(stored, accountNumber);
  }
}
