/**
 * The bank's record logic on plain values: accounts keyed by number, each
 * with its balance and the history of postings since it was last viewed, and
 * one function per operation giving its outcome and the accounts after it.
 * Balances are exact reals: floating-point rounding is not modelled.
 */
module BankLedger {
  import opened Options
  import opened JavaStrings

  /** A Java `int`. */
  type Int32 = x: int | -0x8000_0000 <= x < 0x8000_0000

  /** `++accountCounter` on a Java `int`: one more, wrapping past the largest value. */
  function NextAccountNumber(counter: Int32): (r: Int32)
    ensures counter < 0x7fff_ffff ==> r == counter + 1
    ensures counter == 0x7fff_ffff ==> r == -0x8000_0000
  {
    ((counter as int + 1 + 0x8000_0000) % 0x1_0000_0000 - 0x8000_0000) as Int32
  }

  /** The counter a bank starts with; loading accounts does not move it. */
  const InitialCounter: Int32 := 1000

  /** What a new savings account starts with; every other type starts at zero. */
  const SavingsOpeningBalance: real := 500.0

  /** One posting: the signed amount added and the balance after it. */
  datatype Entry = Entry(amount: real, newBalance: real)

  datatype Account = Account(
    number: Int32,
    holder: string,
    password: string,
    balance: real,
    accountType: string,
    history: seq<Entry>)

  type Accounts = map<Int32, Account>

  /** How an operation ends. */
  datatype Outcome = Ok | AccountNotFound | WrongPassword | InsufficientFunds

  /** `authenticate`: exact, case-sensitive equality with the stored password. */
  predicate Authenticate(a: Account, attempt: string): (ok: bool)
    ensures ok <==> |attempt| == |a.password| && forall i :: 0 <= i < |attempt| ==> attempt[i] == a.password[i]
  {
    a.password == attempt
  }

  /** Authentication does not fold case: a password differing only in case is refused. */
  lemma PasswordIsCaseSensitive(a: Account)
    requires a.password == "Secret"
    ensures Authenticate(a, "Secret")
    ensures !Authenticate(a, "secret") && !Authenticate(a, "SECRET")
  {
    assert "Secret"[0] != "secret"[0];
    assert "Secret"[1] != "SECRET"[1];
  }

  /**
   * `addTransaction`: the balance moves by exactly the amount, one entry
   * holding the amount and the new balance is appended after the old
   * history, and nothing else about the account changes.
   */
  function Post(a: Account, amount: real): (r: Account)
    ensures r.balance - a.balance == amount
    ensures |r.history| == |a.history| + 1 && r.history[..|a.history|] == a.history
    ensures r.history[|a.history|] == Entry(amount, r.balance)
    ensures r.(balance := a.balance, history := a.history) == a
  {
    var balance := a.balance + amount;
    a.(balance := balance, history := a.history + [Entry(amount, balance)])
  }

  /** `clearTransactionHistory`: back to the header-only history. */
  function ClearHistory(a: Account): (r: Account)
    ensures r.history == [] && r.(history := a.history) == a
  {
    a.(history := [])
  }

  /** Each entry's new balance is the previous entry's plus its own amount. */
  predicate Chained(h: seq<Entry>)
  {
    || |h| <= 1
    || (&& Chained(h[..|h| - 1])
        && h[|h| - 1].newBalance == h[|h| - 2].newBalance + h[|h| - 1].amount)
  }

  /** Chained, entry by entry: every entry after the first follows from the one before it. */
  lemma {:induction false} ChainedSteps(h: seq<Entry>)
    requires Chained(h)
    ensures forall k :: 0 < k < |h| ==> h[k].newBalance == h[k - 1].newBalance + h[k].amount
  {
    if |h| > 1 {
      var init := h[..|h| - 1];
      ChainedSteps(init);
      assert forall k :: 0 <= k < |init| ==> init[k] == h[k];
    }
  }

  /** The history accounts for the balance: its entries chain and the last one ends at the balance. */
  predicate Consistent(a: Account)
  {
    && Chained(a.history)
    && (a.history != [] ==> a.history[|a.history| - 1].newBalance == a.balance)
  }

  /** Every account sits under its own number and its history accounts for its balance. */
  predicate WellFormed(m: Accounts)
  {
    forall k :: k in m ==> m[k].number == k && Consistent(m[k])
  }

  /** Only the account under `number` may differ; no account appears or disappears. */
  predicate OthersUnchanged(before: Accounts, after: Accounts, number: Int32)
  {
    && after.Keys == before.Keys
    && forall k :: k in before && k != number ==> after[k] == before[k]
  }

  function SumAmounts(h: seq<Entry>): real
  {
    if h == [] then 0.0 else SumAmounts(h[..|h| - 1]) + h[|h| - 1].amount
  }

  /** A posting keeps the history consistent with the balance. */
  lemma PostKeepsConsistent(a: Account, amount: real)
    ensures Consistent(a) ==> Consistent(Post(a, amount))
  {
    var h := Post(a, amount).history;
    assert h[..|h| - 1] == a.history;
  }

  /** Along a chained history, the last balance is the one before the first entry plus every amount. */
  lemma {:induction false} ChainSum(h: seq<Entry>)
    requires h != [] && Chained(h)
    ensures h[|h| - 1].newBalance == h[0].newBalance - h[0].amount + SumAmounts(h)
  {
    if |h| > 1 {
      var init := h[..|h| - 1];
      ChainSum(init);
    } else {
      assert h[..0] == [];
    }
  }

  /**
   * The history since the last view explains the balance: it is the balance
   * before the first recorded posting plus the sum of the postings.
   */
  lemma HistoryExplainsBalance(a: Account)
    requires Consistent(a) && a.history != []
    ensures a.balance == a.history[0].newBalance - a.history[0].amount + SumAmounts(a.history)
  {
    ChainSum(a.history);
  }

  /** The opening balance: 500 exactly for the type "savings" in any case, else 0. */
  function OpeningBalance(accountType: string): (b: real)
    ensures EqualsIgnoreCase(accountType, "savings") ==> b == SavingsOpeningBalance
    ensures !EqualsIgnoreCase(accountType, "savings") ==> b == 0.0
  {
    if EqualsIgnoreCase(accountType, "savings") then SavingsOpeningBalance else 0.0
  }

  /**
   * `createAccount`: the number is the counter advanced by one and becomes the
   * new counter; the new account is put under it whether or not the number
   * is already taken.
   */
  function CreateAccount(m: Accounts, counter: Int32, holder: string, accountType: string, password: string)
    : (r: (Int32, Accounts))
    ensures r.0 == NextAccountNumber(counter)
    ensures r.1.Keys == m.Keys + {r.0}
    ensures forall k :: k in m && k != r.0 ==> r.1[k] == m[k]
    ensures r.1[r.0].number == r.0 && r.1[r.0].holder == holder && r.1[r.0].password == password
    ensures r.1[r.0].accountType == accountType && r.1[r.0].history == []
    ensures r.1[r.0].balance == OpeningBalance(accountType)
    ensures WellFormed(m) ==> WellFormed(r.1)
  {
    var number := NextAccountNumber(counter);
    (number, m[number := Account(number, holder, password, OpeningBalance(accountType), accountType, [])])
  }

  /** The authentication part of `login`. */
  function Login(m: Accounts, number: Int32, attempt: string): (o: Outcome)
    ensures o == AccountNotFound <==> number !in m
    ensures o == Ok <==> number in m && m[number].password == attempt
    ensures o != InsufficientFunds
  {
    if number !in m then AccountNotFound
    else if !Authenticate(m[number], attempt) then WrongPassword
    else Ok
  }

  /**
   * `withdraw`: the account must exist, the password must match and the
   * balance must cover the amount; then the amount is taken off and one entry
   * recorded. Any failure changes nothing.
   */
  function Withdraw(m: Accounts, number: Int32, amount: real, attempt: string): (r: (Outcome, Accounts))
    ensures r.0 == AccountNotFound <==> number !in m
    ensures r.0 == WrongPassword <==> number in m && m[number].password != attempt
    ensures r.0 == Ok <==> number in m && m[number].password == attempt && m[number].balance >= amount
    ensures r.0 != Ok ==> r.1 == m
    ensures OthersUnchanged(m, r.1, number)
    ensures r.0 == Ok ==>
              && r.1[number].balance == m[number].balance - amount
              && r.1[number].history == m[number].history + [Entry(-amount, m[number].balance - amount)]
              && r.1[number] == m[number].(balance := r.1[number].balance, history := r.1[number].history)
    ensures WellFormed(m) ==> WellFormed(r.1)
  {
    if number !in m then (AccountNotFound, m)
    else if !Authenticate(m[number], attempt) then (WrongPassword, m)
    else if m[number].balance < amount then (InsufficientFunds, m)
    else
      var a := m[number];
      PostKeepsConsistent(a, -amount);
      (Ok, m[number := Post(a, -amount)])
  }

  /** The three ways `withdraw` ends once the account is found. */
  lemma WithdrawCases(m: Accounts, number: Int32, amount: real, attempt: string)
    requires number in m
    ensures Withdraw(m, number, amount, attempt) ==
      if m[number].password != attempt then (WrongPassword, m)
      else if m[number].balance < amount then (InsufficientFunds, m)
      else (Ok, m[number := Post(m[number], -amount)])
  {
  }

  /**
   * `credit`: no password is asked; an existing account gets the amount
   * added and one entry recorded, a missing one changes nothing.
   */
  function Credit(m: Accounts, number: Int32, amount: real): (r: (Outcome, Accounts))
    ensures r.0 == Ok <==> number in m
    ensures r.0 != Ok ==> r.0 == AccountNotFound && r.1 == m
    ensures OthersUnchanged(m, r.1, number)
    ensures r.0 == Ok ==>
              && r.1[number].balance == m[number].balance + amount
              && r.1[number].history == m[number].history + [Entry(amount, m[number].balance + amount)]
              && r.1[number] == m[number].(balance := r.1[number].balance, history := r.1[number].history)
    ensures WellFormed(m) ==> WellFormed(r.1)
  {
    if number !in m then (AccountNotFound, m)
    else
      var a := m[number];
      PostKeepsConsistent(a, amount);
      (Ok, m[number := Post(a, amount)])
  }

  /**
   * `applyForLoan`: with the right password the loan amount itself (not the
   * amount plus interest) is added to the balance and recorded; a wrong
   * password or a missing account changes nothing.
   */
  function ApplyForLoan(m: Accounts, number: Int32, loanAmount: real, attempt: string): (r: (Outcome, Accounts))
    ensures r.0 == AccountNotFound <==> number !in m
    ensures r.0 == Ok <==> number in m && m[number].password == attempt
    ensures r.0 != InsufficientFunds
    ensures r.0 != Ok ==> r.1 == m
    ensures OthersUnchanged(m, r.1, number)
    ensures r.0 == Ok ==>
              && r.1[number].balance == m[number].balance + loanAmount
              && r.1[number].history == m[number].history + [Entry(loanAmount, m[number].balance + loanAmount)]
              && r.1[number] == m[number].(balance := r.1[number].balance, history := r.1[number].history)
    ensures WellFormed(m) ==> WellFormed(r.1)
  {
    if number !in m then (AccountNotFound, m)
    else if !Authenticate(m[number], attempt) then (WrongPassword, m)
    else
      var a := m[number];
      PostKeepsConsistent(a, loanAmount);
      (Ok, m[number := Post(a, loanAmount)])
  }

  /**
   * `viewAccountInfo`: shows the account as it is, then resets its history
   * to the header-only state; the balance and every other account stay.
   */
  function ViewAccountInfo(m: Accounts, number: Int32): (r: (Option<Account>, Accounts))
    ensures r.0.Some? <==> number in m
    ensures r.0.Some? ==> r.0.value == m[number]
    ensures r.0.None? ==> r.1 == m
    ensures OthersUnchanged(m, r.1, number)
    ensures number in m ==> r.1[number] == m[number].(history := [])
    ensures WellFormed(m) ==> WellFormed(r.1)
  {
    if number !in m then (None, m)
    else (Some(m[number]), m[number := ClearHistory(m[number])])
  }

  /** A saved account line, already split and converted: the fields `loadUserData` reads. */
  datatype StoredAccount = StoredAccount(number: Int32, holder: string, password: string, balance: real, accountType: string)

  /** The account a stored line becomes: its fields and an empty history. */
  function Restore(s: StoredAccount): (r: Account)
    ensures r.number == s.number && r.balance == s.balance && r.history == []
    ensures Consistent(r)
  {
    Account(s.number, s.holder, s.password, s.balance, s.accountType, [])
  }

  /** `loadUserData`: each stored account is put under its number in file order, so a later duplicate wins. */
  function Load(stored: seq<StoredAccount>): (m: Accounts)
    ensures WellFormed(m)
  {
    if stored == [] then map[]
    else
      var last := stored[|stored| - 1];
      Load(stored[..|stored| - 1])[last.number := Restore(last)]
  }

  /** The loaded numbers are exactly the stored ones. */
  lemma {:induction false} LoadKeys(stored: seq<StoredAccount>, k: Int32)
    ensures k in Load(stored) <==> exists i :: 0 <= i < |stored| && stored[i].number == k
  {
    if stored != [] {
      var n := |stored| - 1;
      LoadKeys(stored[..n], k);
      if exists i :: 0 <= i < n && stored[..n][i].number == k {
        var i :| 0 <= i < n && stored[..n][i].number == k;
        assert stored[i].number == k;
      }
      if exists i :: 0 <= i < |stored| && stored[i].number == k {
        var i :| 0 <= i < |stored| && stored[i].number == k;
        if i < n {
          assert stored[..n][i].number == k;
        }
      }
    }
  }

  /** A stored account that no later line repeats is loaded as stored. */
  lemma {:induction false} LoadLastWins(stored: seq<StoredAccount>, i: nat)
    requires i < |stored|
    requires forall j :: i < j < |stored| ==> stored[j].number != stored[i].number
    ensures stored[i].number in Load(stored) && Load(stored)[stored[i].number] == Restore(stored[i])
  {
    var n := |stored| - 1;
    if i < n {
      LoadLastWins(stored[..n], i);
    }
  }

  /** A credit followed by a withdrawal of the same amount gives back the balance and records both. */
  lemma CreditThenWithdraw(m: Accounts, number: Int32, amount: real)
    requires number in m && m[number].balance >= 0.0
    ensures var (o1, m1) := Credit(m, number, amount);
      var (o2, m2) := Withdraw(m1, number, amount, m[number].password);
      && o1 == Ok && o2 == Ok
      && m2[number].balance == m[number].balance
      && m2[number].history ==
           m[number].history + [Entry(amount, m[number].balance + amount), Entry(-amount, m[number].balance)]
  {
  }

  /** Viewing twice in a row shows the same balance and, the second time, an empty history. */
  lemma ViewTwice(m: Accounts, number: Int32)
    requires number in m
    ensures var (first, m1) := ViewAccountInfo(m, number);
      var (second, m2) := ViewAccountInfo(m1, number);
      && first == Some(m[number])
      && second == Some(m[number].(history := []))
      && m2 == m1
  {
  }

  /**
   * A new savings account opens with 500; withdrawing 200 with its password
   * leaves 300; a withdrawal of 1000 is then refused and the balance stays.
   */
  lemma SavingsScenario(holder: string, password: string)
    ensures
      var (n, m1) := CreateAccount(map[], InitialCounter, holder, "Savings", password);
      var (o2, m2) := Withdraw(m1, n, 200.0, password);
      var (o3, m3) := Withdraw(m2, n, 1000.0, password);
      && n == 1001 && m1[n].balance == 500.0
      && o2 == Ok && m2[n].balance == 300.0
      && o3 == InsufficientFunds && m3[n].balance == 300.0
  {
    assert EqualsIgnoreCase("Savings", "savings") by {
      assert Lower("Savings") == Lower("savings");
    }
  }

  /**
   * The counter does not look at loaded numbers: an account stored under
   * 1001 is replaced by the first account created after loading.
   */
  lemma CreateOverwritesLoaded(stored: StoredAccount, holder: string, accountType: string, password: string)
    requires stored.number == 1001
    ensures var (n, m) := CreateAccount(Load([stored]), InitialCounter, holder, accountType, password);
      && n == stored.number && m.Keys == {n}
      && m[n].holder == holder && m[n].password == password
  {
    assert [stored][..0] == [];
  }
}
