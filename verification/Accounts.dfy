/** The lamport ledger: every account the runtime knows, keyed by address.

  One address is one cell, so two roles played by one account share its balance. Program-derived
  addresses are constructors, hence injective in their seeds and distinct from every wallet.
*/
module Accounts {
  import opened Field

  datatype Address =
    | SystemProgram
    | PoolPda
    | VaultPda
    | NullifierPda(hash: Word)
    | Wallet(id: nat)

  datatype Owner = System | ThisProgram | OtherProgram

  datatype Data =
    | NoData
    | PoolData
    | VaultData
    | NullifierData(hash: Word)
    | Foreign(len: nat)

  datatype Account = Account(lamports: nat, owner: Owner, data: Data)

  type Ledger = map<Address, Account>

  function DataLen(d: Data): nat {
    match d
    case NoData => 0
    case PoolData => 8 + 8968
    case VaultData => 8
    case NullifierData(_) => 8 + 72
    case Foreign(len) => len
  }

  /** An address nobody has touched is an empty account of the system program. */
  function At(m: Ledger, a: Address): Account {
    if a in m then m[a] else Account(0, System, NoData)
  }

  function Bal(m: Ledger, a: Address): nat { At(m, a).lamports }

  function SetBal(m: Ledger, a: Address, x: nat): Ledger {
    if x == Bal(m, a) then m else m[a := At(m, a).(lamports := x)]
  }

  function Move(m: Ledger, from: Address, to: Address, x: nat): Ledger
    requires x <= Bal(m, from)
  {
    var debited := SetBal(m, from, Bal(m, from) - x);
    SetBal(debited, to, Bal(debited, to) + x)
  }

  /** The system program moves lamports only out of a data-less account it owns. */
  predicate CanPay(m: Ledger, a: Address, x: nat) {
    At(m, a).owner == System && DataLen(At(m, a).data) == 0 && x <= Bal(m, a)
  }

  function If(b: bool, x: int): int { if b then x else 0 }

  /** A transfer changes two balances, which may be one, and nothing else of any account. */
  lemma MoveAt(m: Ledger, from: Address, to: Address, x: nat, a: Address)
    requires x <= Bal(m, from)
    ensures Bal(Move(m, from, to, x), a) == Bal(m, a) - If(a == from, x) + If(a == to, x)
    ensures At(Move(m, from, to, x), a).(lamports := 0) == At(m, a).(lamports := 0)
  {}

  function Credit(m: Ledger, a: Address, x: nat): Ledger { SetBal(m, a, Bal(m, a) + x) }

  /** Crediting out of a debit made in advance is a transfer followed by the rest of the debit. */
  lemma DebitThenCredit(m: Ledger, from: Address, to: Address, x: nat, rest: nat)
    requires from != to && x + rest <= Bal(m, from)
    ensures Credit(SetBal(m, from, Bal(m, from) - (x + rest)), to, x)
         == SetBal(Move(m, from, to, x), from, Bal(Move(m, from, to, x), from) - rest)
  {}

  // ---------------------------------------------------------------- conservation

  ghost function Total(m: Ledger): nat {
    if m == map[] then 0
    else
      var a :| a in m;
      m[a].lamports + Total(m - {a})
  }

  lemma {:induction false} TotalWithout(m: Ledger, a: Address)
    requires a in m
    ensures Total(m) == m[a].lamports + Total(m - {a})
    decreases |m|
  {
    var b :| b in m && Total(m) == m[b].lamports + Total(m - {b});
    if b != a {
      TotalWithout(m - {b}, a);
      TotalWithout(m - {a}, b);
      assert m - {a} - {b} == m - {b} - {a};
    }
  }

  lemma TotalAfterSet(m: Ledger, a: Address, account: Account)
    ensures Total(m[a := account]) + Bal(m, a) == Total(m) + account.lamports
  {
    TotalWithout(m[a := account], a);
    assert m[a := account] - {a} == m - {a};
    if a in m {
      TotalWithout(m, a);
    } else {
      assert m - {a} == m;
    }
  }

  lemma TotalAfterSetBal(m: Ledger, a: Address, x: nat)
    ensures Total(SetBal(m, a, x)) + Bal(m, a) == Total(m) + x
  {
    TotalAfterSet(m, a, At(m, a).(lamports := x));
  }

  lemma MoveKeepsTotal(m: Ledger, from: Address, to: Address, x: nat)
    requires x <= Bal(m, from)
    ensures Total(Move(m, from, to, x)) == Total(m)
  {
    var debited := SetBal(m, from, Bal(m, from) - x);
    TotalAfterSetBal(m, from, Bal(m, from) - x);
    TotalAfterSetBal(debited, to, Bal(debited, to) + x);
  }

  lemma BalanceWithinTotal(m: Ledger, a: Address)
    ensures Bal(m, a) <= Total(m)
  {
    if a in m {
      TotalWithout(m, a);
    }
  }

  lemma BalancesWithinTotal(m: Ledger, a: Address, b: Address)
    requires a != b
    ensures Bal(m, a) + Bal(m, b) <= Total(m)
  {
    if a in m {
      TotalWithout(m, a);
      if b in m {
        TotalWithout(m - {a}, b);
      }
    } else if b in m {
      TotalWithout(m, b);
    }
  }

  /** Create a program-derived account: the payer brings it up to `minimum`, paying nothing if it was
    pre-funded beyond that, and the program then owns it. */
  function Shortfall(m: Ledger, a: Address, minimum: nat): nat {
    if Bal(m, a) >= minimum then 0 else minimum - Bal(m, a)
  }

  function Open(m: Ledger, payer: Address, a: Address, data: Data, minimum: nat): Ledger
    requires Shortfall(m, a, minimum) <= Bal(m, payer)
  {
    var funded := Move(m, payer, a, Shortfall(m, a, minimum));
    funded[a := Account(Bal(funded, a), ThisProgram, data)]
  }

  /** Creating needs a payer unless the address was pre-funded to the minimum already. */
  predicate CanOpen(m: Ledger, payer: Address, a: Address, minimum: nat) {
    && At(m, a).owner == System && DataLen(At(m, a).data) == 0
    && payer != a
    && (Bal(m, a) == 0 || Bal(m, a) < minimum ==> CanPay(m, payer, Shortfall(m, a, minimum)))
  }

  lemma OpenKeepsTotal(m: Ledger, payer: Address, a: Address, data: Data, minimum: nat)
    requires Shortfall(m, a, minimum) <= Bal(m, payer)
    ensures Total(Open(m, payer, a, data, minimum)) == Total(m)
  {
    var x := Shortfall(m, a, minimum);
    MoveKeepsTotal(m, payer, a, x);
    var funded := Move(m, payer, a, x);
    TotalAfterSet(funded, a, Account(Bal(funded, a), ThisProgram, data));
  }

  lemma OpenAt(m: Ledger, payer: Address, a: Address, data: Data, minimum: nat, b: Address)
    requires Shortfall(m, a, minimum) <= Bal(m, payer)
    ensures var x := Shortfall(m, a, minimum);
      Bal(Open(m, payer, a, data, minimum), b) == Bal(m, b) - If(b == payer, x) + If(b == a, x)
    ensures At(Open(m, payer, a, data, minimum), b).(lamports := 0) ==
      if b == a then Account(0, ThisProgram, data) else At(m, b).(lamports := 0)
  {
    MoveAt(m, payer, a, Shortfall(m, a, minimum), b);
  }
}
