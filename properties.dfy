/**
 * What one run of `secrets:decrypt-to-local` guarantees, proved about the
 * functions that `Command.Execute` is verified against.
 */
module DecryptToLocalProperties {
  import opened Vaults
  import opened DecryptToLocal

  /**
   * Every secret listed from the vault is either skipped or left for the
   * copy loop, so the skip count and the candidates add up to the number
   * of secrets found.
   */
  lemma CandidateCount(found: Secrets, existing: set<string>, force: bool)
    ensures force ==> |Candidates(found, existing, force)| == |found|
    ensures !force ==> |Candidates(found, existing, force)| + |SkippedKeys(found, existing)| == |found|
  {

  }

  /**
   * Every secret found is accounted for exactly once: the skip count, the
   * number of errors reported and the number of secrets sealed add up to
   * the number of secrets found.
   */
  lemma OutcomeCount(found: Secrets, existing: set<string>, force: bool, last: Option<string>)
    ensures var c := Candidates(found, existing, force);
      (if force then 0 else |SkippedKeys(found, existing)|)
        + |Errors(c, last)| + |Copies(c)| == |found|
  {
    var c := Candidates(found, existing, force);
    CandidateCount(found, existing, force);
    ErrorCount(c, last);
    CandidatesSplit(c);
  }

  /** One error per unreadable candidate. */
  lemma ErrorCount(c: Secrets, last: Option<string>)
    ensures |Errors(c, last)| == |Failures(c)|
  {
    assert Errors(c, last).Keys == Failures(c);
    assert |Errors(c, last)| == |Errors(c, last).Keys|;
  }

  /** Each candidate is either reported or sealed. */
  lemma CandidatesSplit(c: Secrets)
    ensures |Failures(c)| + |Copies(c)| == |c|
  {
    assert c.Keys == Failures(c) + Copies(c).Keys;
    assert |c.Keys| == |Failures(c)| + |Copies(c).Keys|;
    assert |Copies(c)| == |Copies(c).Keys|;
  }

  /**
   * The skipped names, the reported names and the sealed names are
   * disjoint; the last two cover the candidates, and with the skipped
   * names they cover everything found.
   */
  lemma Partition(found: Secrets, existing: set<string>, force: bool)
    ensures var c := Candidates(found, existing, force);
      && Failures(c) !! Copies(c).Keys
      && Failures(c) + Copies(c).Keys == c.Keys
      && (force ==> c == found)
      && (!force ==> SkippedKeys(found, existing) !! c.Keys)
      && (!force ==> SkippedKeys(found, existing) + c.Keys == found.Keys)
  {

  }

  /**
   * Without `--force` nothing the local vault already holds is touched,
   * even where its value differs from the vault's: a name it has is either
   * skipped (readable in the vault) or reported (unreadable in the vault).
   */
  lemma WithoutForceLocalKept(found: Secrets, local: Secrets)
    ensures Copies(Candidates(found, local.Keys, false)).Keys !! local.Keys
    ensures var after := LocalAfterRun(found, local, false);
      forall k :: k in local ==> k in after && after[k] == local[k]
  {

  }

  /**
   * With `--force` every readable secret of the vault ends up in the local
   * vault with exactly its value, and nothing is skipped.
   */
  lemma ForceCopiesEveryReadable(found: Secrets, local: Secrets)
    ensures Copies(Candidates(found, local.Keys, true)).Keys == Readable(found)
    ensures var after := LocalAfterRun(found, local, true);
      forall k :: k in found && found[k].Some? ==> k in after && after[k] == found[k]
  {
  }

  /**
   * A secret the vault cannot read is never skipped and never sealed:
   * it is reported, whatever `--force` says and whatever the local vault
   * holds.
   */
  lemma UnreadableIsReported(found: Secrets, existing: set<string>, force: bool, last: Option<string>, k: string)
    requires k in found && found[k].None?
    ensures k !in SkippedKeys(found, existing)
    ensures k in Failures(Candidates(found, existing, force))
    ensures k !in Copies(Candidates(found, existing, force))
    ensures var errors := Errors(Candidates(found, existing, force), last);
      k in errors && errors[k] == ErrorMessage(k, last)
  {

  }

  /**
   * The only entries written are names listed by the vault: a local
   * name the vault does not have keeps its value, and no new name appears
   * that the vault did not list.
   */
  lemma OnlyFoundNamesWritten(found: Secrets, local: Secrets, force: bool)
    ensures var after := LocalAfterRun(found, local, force);
      && after.Keys == local.Keys + Copies(Candidates(found, local.Keys, force)).Keys
      && Copies(Candidates(found, local.Keys, force)).Keys <= Readable(found)
      && forall k :: k in local && k !in found ==> after[k] == local[k]
  {
  }

  /**
   * When the local vault already has every name of the vault and
   * `--force` is not given, nothing is copied: the readable secrets are
   * skipped and the unreadable ones are still reported.
   */
  lemma FullOverlap(found: Secrets, local: Secrets)
    requires found.Keys <= local.Keys
    ensures SkippedKeys(found, local.Keys) == Readable(found)
    ensures Copies(Candidates(found, local.Keys, false)) == map[]
    ensures Failures(Candidates(found, local.Keys, false)) == found.Keys - Readable(found)
    ensures LocalAfterRun(found, local, false) == local
  {

  }

  /** Running the command again without `--force` copies nothing more. */
  lemma RerunCopiesNothing(found: Secrets, local: Secrets, force: bool)
    ensures var after := LocalAfterRun(found, local, force);
      && Copies(Candidates(found, after.Keys, false)) == map[]
      && LocalAfterRun(found, after, false) == after
  {

  }

  /** Running the command twice with `--force` is the same as running it once. */
  lemma ForceRunIdempotent(found: Secrets, local: Secrets)
    ensures var after := LocalAfterRun(found, local, true);
      LocalAfterRun(found, after, true) == after
  {
  }

  /**
   * Without a last message from the vault, the generated error names the
   * secret, so two unreadable secrets never get the same error.
   */
  lemma GeneratedMessagesDistinct(k1: string, k2: string)
    requires k1 != k2
    ensures ErrorMessage(k1, None) != ErrorMessage(k2, None)
  {
    var m1, m2 := ErrorMessage(k1, None), ErrorMessage(k2, None);
    assert m1[|SkippedPrefix|..|m1| - |SkippedSuffix|] == k1;
  }

  /**
   * With a last message from the vault, every unreadable secret is reported
   * with that same message, which need not name the secret at all.
   */
  lemma VaultMessageForEveryError(cands: Secrets, m: string)
    ensures var errors := Errors(cands, Some(m));
      forall k :: k in Failures(cands) ==> k in errors && errors[k] == m
  {
  }

  // ---------------------------------------------------------------------
  // Three runs worked out: vault {A: "x", B: unreadable, C: "z"}, local
  // vault {A: "old"}.
  // ---------------------------------------------------------------------

  function ScenarioVault(): Secrets
  {
    map["A" := Some("x"), "B" := None, "C" := Some("z")]
  }

  function ScenarioLocal(): Secrets
  {
    map["A" := Some("old")]
  }

  /** Without `--force`: A skipped, B reported, C copied, A keeps "old". */
  lemma ScenarioWithoutForce()
    ensures SkippedKeys(ScenarioVault(), ScenarioLocal().Keys) == {"A"}
    ensures Failures(Candidates(ScenarioVault(), ScenarioLocal().Keys, false)) == {"B"}
    ensures Copies(Candidates(ScenarioVault(), ScenarioLocal().Keys, false)) == map["C" := "z"]
    ensures LocalAfterRun(ScenarioVault(), ScenarioLocal(), false) == map["A" := Some("old"), "C" := Some("z")]
  {

  }

  /** With `--force`: B reported, A and C copied, A now holds "x". */
  lemma ScenarioWithForce()
    ensures Failures(Candidates(ScenarioVault(), ScenarioLocal().Keys, true)) == {"B"}
    ensures Copies(Candidates(ScenarioVault(), ScenarioLocal().Keys, true)) == map["A" := "x", "C" := "z"]
    ensures LocalAfterRun(ScenarioVault(), ScenarioLocal(), true) == map["A" := Some("x"), "C" := Some("z")]
  {

  }

  /** An empty vault: nothing skipped, copied or reported, and exit code 0. */
  lemma ScenarioEmptyVault(local: Secrets, force: bool, exit: bool, last: Option<string>)
    ensures Candidates(map[], local.Keys, force) == map[]
    ensures Errors(Candidates(map[], local.Keys, force), last) == map[]
    ensures LocalAfterRun(map[], local, force) == local
    ensures ExitCode(Failures(Candidates(map[], local.Keys, force)) != {}, exit) == 0
  {

  }
}
