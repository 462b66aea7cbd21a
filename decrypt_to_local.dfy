/**
 * The `secrets:decrypt-to-local` console command: decrypt every secret of
 * the vault and store it in the local vault, skipping the secrets the local
 * vault already has unless forced, and reporting the unreadable ones.
 */
module DecryptToLocal {
  import opened Vaults

  // ---------------------------------------------------------------------
  // What one run is meant to do, as functions of the two listings.
  // ---------------------------------------------------------------------

  /** The names whose value could be read (PHP's `isset` is false on `null`). */
  function Readable(s: Secrets): set<string>
  {
    set k | k in s && s[k].Some?
  }

  /**
   * The names dropped without `--force`: present in the local vault and
   * readable in the vault. An unreadable secret is never skipped.
   */
  function SkippedKeys(found: Secrets, existing: set<string>): set<string>
  {
    Readable(found) * existing
  }

  /** The secrets left for the copy loop. */
  function Candidates(found: Secrets, existing: set<string>, force: bool): Secrets
  {
    if force then found else found - SkippedKeys(found, existing)
  }

  /** The values the copy loop seals into the local vault. */
  function Copies(cands: Secrets): map<string, string>
  {
    map k | k in cands && cands[k].Some? :: cands[k].value
  }

  /** The names the copy loop reports as errors. */
  function Failures(cands: Secrets): set<string>
  {
    set k | k in cands && cands[k].None?
  }

  /** The local vault's entries after sealing `copies` one by one. */
  function SealAll(local: Secrets, copies: map<string, string>): Secrets
  {
    local + map k | k in copies :: Some(copies[k])
  }

  /** The local vault's entries after one run against the vault's `found` secrets. */
  function LocalAfterRun(found: Secrets, local: Secrets, force: bool): Secrets
  {
    SealAll(local, Copies(Candidates(found, local.Keys, force)))
  }

  const SkippedPrefix: string := "Secret \""
  const SkippedSuffix: string := "\" has been skipped as there was an error reading it."

  /**
   * The error shown for an unreadable secret: the vault's last message when
   * it has one, otherwise a message naming the secret.
   */
  function ErrorMessage(key: string, last: Option<string>): (r: string)
    ensures last.Some? ==> r == last.value
  {
    match last
    case Some(m) => m
    case None => SkippedPrefix + key + SkippedSuffix
  }

  /** One error message per unreadable candidate. */
  function Errors(cands: Secrets, last: Option<string>): map<string, string>
  {
    map k | k in Failures(cands) :: ErrorMessage(k, last)
  }

  /** The command's status once the local vault is available. */
  function ExitCode(hadErrors: bool, exit: bool): (r: int)
    ensures r == 0 || r == 1
    ensures r == 1 <==> hadErrors && exit
  {
    if hadErrors && exit then 1 else 0
  }

  // ---------------------------------------------------------------------
  // The command.
  // ---------------------------------------------------------------------

  /**
   * The skip pass run without `--force`: walk the local vault's listing and
   * drop from `found` each name it has with a readable value, counting
   * the drops.
   */
  method SkipExisting(found: Secrets, existing: Secrets) returns (remaining: Secrets, skipped: nat)
    ensures remaining == Candidates(found, existing.Keys, false)
    ensures skipped == |SkippedKeys(found, existing.Keys)|
    ensures skipped <= |found| && skipped <= |existing|
  {
    remaining := found;
    skipped := 0;
    var todo := existing.Keys;
    ghost var dropped: set<string> := {};
    while todo != {}
      invariant todo <= existing.Keys
      invariant forall x :: x in dropped <==> x in existing && x !in todo && x in found && found[x].Some?
      invariant remaining.Keys == found.Keys - dropped
      invariant forall x :: x in remaining ==> remaining[x] == found[x]
      invariant skipped == |dropped|
      decreases todo
    {
      var k :| k in todo;
      if k in remaining && remaining[k].Some? {
        skipped := skipped + 1;
        remaining := remaining - {k};
        dropped := dropped + {k};
      }
      todo := todo - {k};
    }
    SkipPassDone(found, existing, dropped, remaining);
  }

  /** What the finished skip pass has computed, stated by the functions above. */
  lemma SkipPassDone(found: Secrets, existing: Secrets, dropped: set<string>, remaining: Secrets)
    requires forall x :: x in dropped <==> x in existing && x in found && found[x].Some?
    requires remaining.Keys == found.Keys - dropped
    requires forall x :: x in remaining ==> remaining[x] == found[x]
    ensures dropped == SkippedKeys(found, existing.Keys)
    ensures remaining == Candidates(found, existing.Keys, false)
    ensures |dropped| <= |found| && |dropped| <= |existing|
  {
    DroppedAreSkipped(found, existing.Keys, dropped);
    MapMinus(found, dropped, remaining);
    SubsetCard(dropped, found.Keys);
    SubsetCard(dropped, existing.Keys);
    assert |existing| == |existing.Keys|;
  }

  /** The names the skip pass dropped are the skipped names. */
  lemma DroppedAreSkipped(found: Secrets, existing: set<string>, dropped: set<string>)
    requires forall x :: x in dropped <==> x in existing && x in found && found[x].Some?
    ensures dropped == SkippedKeys(found, existing)
  {
  }

  /** A map that agrees with `m` on exactly the keys outside `s` is `m - s`. */
  lemma MapMinus<K, V>(m: map<K, V>, s: set<K>, r: map<K, V>)
    requires r.Keys == m.Keys - s
    requires forall x :: x in r ==> r[x] == m[x]
    ensures r == m - s
  {
  }

  lemma SubsetCard<T>(a: set<T>, b: set<T>)
    requires a <= b
    ensures |a| <= |b|
  {
    assert b == a + (b - a);
  }

  /** The local entries the finished copy loop leaves, stated by the functions above. */
  lemma SealPassDone(before: Secrets, cands: Secrets, after: Secrets)
    requires forall x :: x in after <==> x in before || (x in cands && cands[x].Some?)
    requires forall x :: x in after ==>
      after[x] == (if x in cands && cands[x].Some? then cands[x] else before[x])
    ensures after == SealAll(before, Copies(cands))
  {
  }

  /** The names the finished copy loop reports, stated by the functions above. */
  lemma ReportedPassDone(cands: Secrets, errors: map<string, string>)
    requires forall x :: x in errors <==> x in cands && cands[x].None?
    ensures errors.Keys == Failures(cands)
    ensures errors != map[] <==> Failures(cands) != {}
  {
  }

  /** The messages the finished copy loop reports, stated by the functions above. */
  lemma ErrorPassDone(cands: Secrets, last: Option<string>, errors: map<string, string>)
    requires errors.Keys == Failures(cands)
    requires forall x :: x in errors ==> errors[x] == ErrorMessage(x, last)
    ensures errors == Errors(cands, last)
  {
  }

  class Command {
    const vault: Vault
    const localVault: Vault?

    constructor (vault: Vault, localVault: Vault?)
      ensures this.vault == vault && this.localVault == localVault
    {
      this.vault := vault;
      this.localVault := localVault;
    }

    /**
     * The copy loop: seal each readable candidate into `local` and report
     * each unreadable one with the vault's last message. When the local
     * vault is the vault itself, each seal may change that message, so only
     * the reported names are promised then.
     */
    method SealCandidates(local: Vault, cands: Secrets) returns (hadErrors: bool, errors: map<string, string>)
      modifies local
      ensures local.entries == SealAll(old(local.entries), Copies(cands))
      ensures errors.Keys == Failures(cands)
      ensures local != vault ==> errors == Errors(cands, old(vault.lastMessage))
      ensures hadErrors <==> Failures(cands) != {}
      ensures local != vault ==> unchanged(vault)
    {
      ghost var last := vault.lastMessage;
      hadErrors := false;
      errors := map[];
      var todo := cands.Keys;
      while todo != {}
        invariant todo <= cands.Keys
        invariant forall x :: x in local.entries <==>
          x in old(local.entries) || (x in cands && x !in todo && cands[x].Some?)
        invariant forall x :: x in local.entries ==>
          local.entries[x] == (if x in cands && x !in todo && cands[x].Some? then cands[x] else old(local.entries)[x])
        invariant forall x :: x in errors <==> x in cands && x !in todo && cands[x].None?
        invariant local != vault ==> forall x :: x in errors ==> errors[x] == ErrorMessage(x, last)
        invariant hadErrors <==> errors != map[]
        invariant local != vault ==> unchanged(vault)
        decreases todo
      {
        var k :| k in todo;
        var v := cands[k];
        if v.None? {
          var m := vault.GetLastMessage();
          errors := errors[k := ErrorMessage(k, m)];
          hadErrors := true;
        } else {
          local.Seal(k, v.value);
        }
        todo := todo - {k};
      }
      SealPassDone(old(local.entries), cands, local.entries);
      ReportedPassDone(cands, errors);
      if local != vault {
        ErrorPassDone(cands, last, errors);
      }
    }

    /**
     * Copies the vault's secrets into the local vault. Returns the exit
     * code, the number of secrets skipped because the local vault already
     * had them, and the error reported for each unreadable secret. Each
     * error carries the vault's last message as it stands after the
     * listing (which is also its message at the end, the vault being only
     * listed); when the local vault is the vault itself, seals may change
     * that message in between, so only the reported names are promised.
     */
    method Execute(force: bool, exit: bool) returns (code: int, skipped: nat, errors: map<string, string>)
      modifies localVault, vault`lastMessage
      ensures localVault == null ==> code == 1 && skipped == 0 && errors == map[] && unchanged(vault)
      ensures localVault != null ==>
        var cands := Candidates(old(vault.entries), old(localVault.entries).Keys, force);
        && skipped == (if force then 0 else |SkippedKeys(old(vault.entries), old(localVault.entries).Keys)|)
        && errors.Keys == Failures(cands)
        && (localVault != vault ==> errors == Errors(cands, vault.lastMessage))
        && localVault.entries == LocalAfterRun(old(vault.entries), old(localVault.entries), force)
        && code == ExitCode(Failures(cands) != {}, exit)
      ensures localVault != vault ==> vault.entries == old(vault.entries)
    {
      if localVault == null {
        return 1, 0, map[];
      }
      var local: Vault := localVault;
      var secrets := vault.List(true);
      assert secrets == old(vault.entries);
      skipped := 0;
      if !force {
        var existing := local.List(false);
        secrets, skipped := SkipExisting(secrets, existing);
      }
      var hadErrors;
      hadErrors, errors := SealCandidates(local, secrets);
      code := ExitCode(hadErrors, exit);
    }
  }
}
