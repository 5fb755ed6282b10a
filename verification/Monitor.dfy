/** The monitor's vault check. */
module Monitor {
  import opened Arith

  datatype Severity = CRITICAL | WARNING

  datatype Code =
    | BAD_DENOMINATION | WITHDRAWALS_EXCEED_DEPOSITS | VAULT_SURPLUS | INTEGRITY_REMAINDER | INVARIANT_LOGIC_ERROR

  datatype Finding = Finding(severity: Severity, code: Code)

  function CheckVaultIntegrity(denomination: int, deposits: nat, vaultLamports: nat, vaultRent: nat): seq<Finding> {
    if denomination <= 0 then [Finding(CRITICAL, BAD_DENOMINATION)]
    else if vaultLamports < vaultRent then [Finding(CRITICAL, WITHDRAWALS_EXCEED_DEPOSITS)]
    else
      var numerator := vaultRent + deposits * denomination - vaultLamports;
      if numerator < 0 then [Finding(WARNING, VAULT_SURPLUS)]
      else if numerator % denomination != 0 then [Finding(CRITICAL, INTEGRITY_REMAINDER)]
      else if numerator / denomination > deposits then [Finding(CRITICAL, INVARIANT_LOGIC_ERROR)]
      else []
  }

  /** Withdrawals explain the balance: so many deposits, so many of them withdrawn, nothing else. */
  ghost predicate ExplainedBy(denomination: int, deposits: nat, vaultLamports: nat, vaultRent: nat, withdrawals: nat) {
    withdrawals <= deposits && vaultLamports == vaultRent + (deposits - withdrawals) * denomination
  }

  /** The check is silent exactly when some possible number of withdrawals explains the balance, each
    alarm means what it says, and the last branch cannot be reached. */
  lemma SilentExactlyWhenExplained(denomination: int, deposits: nat, vaultLamports: nat, vaultRent: nat)
    requires denomination > 0
    ensures var found := CheckVaultIntegrity(denomination, deposits, vaultLamports, vaultRent);
      && (found == [] <==> exists w: nat :: ExplainedBy(denomination, deposits, vaultLamports, vaultRent, w))
      && (forall f :: f in found ==>
            && f.code != BAD_DENOMINATION && f.code != INVARIANT_LOGIC_ERROR
            && (f.code == WITHDRAWALS_EXCEED_DEPOSITS <==> vaultLamports < vaultRent)
            && (f.code == VAULT_SURPLUS <==> vaultLamports > vaultRent + deposits * denomination))
  {
    var numerator := vaultRent + deposits * denomination - vaultLamports;
    if vaultLamports >= vaultRent && numerator >= 0 {
      var w := numerator / denomination;
      QuotientWithin(numerator, denomination, deposits);
      if numerator % denomination == 0 {
        Distribute(deposits, w, denomination);
        assert ExplainedBy(denomination, deposits, vaultLamports, vaultRent, w);
      }
    }
    forall w: nat | ExplainedBy(denomination, deposits, vaultLamports, vaultRent, w)
      ensures CheckVaultIntegrity(denomination, deposits, vaultLamports, vaultRent) == []
    {
      Distribute(deposits, w, denomination);
      MultipleDivides(w, denomination);
      MultipleDivides(deposits - w, denomination);
    }
  }

  /** The balance the program keeps, rearranged. */
  lemma AccountedBalance(d: int, n: nat, w: nat, donated: nat, v: nat, r: nat)
    requires d > 0 && v + w * d == r + n * d + donated && v >= r
    ensures v == r + (n - w) * d + donated
    ensures w * d <= n * d + donated
    ensures donated == 0 ==> w <= n
  {
    Distribute(n, w, d);
    if w > n {
      Distribute(w, n, d);
      AtLeastOnce(w - n, d);
    }
  }

  /** Against a vault that also received `donated` lamports, the check never reports a drain, and it is
    silent exactly when the donations look like withdrawals that did not happen. */
  lemma DonationsExplained(d: int, n: nat, w: nat, donated: nat, v: nat, r: nat)
    requires d > 0 && v + w * d == r + n * d + donated && v >= r
    ensures var found := CheckVaultIntegrity(d, n, v, r);
      && (forall f :: f in found ==> f.code == VAULT_SURPLUS || f.code == INTEGRITY_REMAINDER)
      && (found == [] <==> exists k: nat :: k <= w && donated == k * d)
  {
    SilentExactlyWhenExplained(d, n, v, r);
    forall k: nat | k <= w && donated == k * d
      ensures exists x: nat :: ExplainedBy(d, n, v, r, x)
    {
      UnmadeWithdrawals(d, n, w, k, v, r);
    }
    forall x: nat | ExplainedBy(d, n, v, r, x)
      ensures exists k: nat :: k <= w && donated == k * d
    {
      WithdrawalsMissing(d, n, w, donated, x, v, r);
    }
  }

  lemma UnmadeWithdrawals(d: int, n: nat, w: nat, k: nat, v: nat, r: nat)
    requires d > 0 && v + w * d == r + n * d + k * d && v >= r && k <= w
    ensures ExplainedBy(d, n, v, r, w - k)
  {
    Distribute(w, k, d);
    Distribute(n, w - k, d);
    if w - k > n {
      Distribute(w - k, n, d);
      AtLeastOnce(w - k - n, d);
    }
  }

  lemma WithdrawalsMissing(d: int, n: nat, w: nat, donated: nat, x: nat, v: nat, r: nat)
    requires d > 0 && v + w * d == r + n * d + donated && ExplainedBy(d, n, v, r, x)
    ensures x <= w && donated == (w - x) * d
  {
    Distribute(n, x, d);
    Distribute(w, x, d);
    if x > w {
      Distribute(x, w, d);
      AtLeastOnce(x - w, d);
    }
  }
}
