# secrets:decrypt-to-local, modelled in Dafny

Symfony's FrameworkBundle has a console command, `secrets:decrypt-to-local`.
It decrypts every secret of the application's vault and stores it in the
local vault. Without `--force`, it leaves alone the secrets the local vault
already has. It reports each secret that cannot be decrypted, and with
`--exit` it returns a non-zero status when there was such an error. If no
local vault is configured, the command fails at once.

The model has three files:

- `vault.dfy` (module `Vaults`): the abstract vault. A vault is a class
  holding the map it would list with values revealed. A secret that cannot be
  decrypted maps to `None`, standing for PHP's `null`. The vault also keeps
  its single-slot last message. `List` returns the map (without values:
  every name mapped to `None`), `Seal` overwrites one entry, and
  `GetLastMessage` returns the message. Listing and sealing may both leave
  a new last message, which the model does not pin down.
- `decrypt_to_local.dfy` (module `DecryptToLocal`): the command.
  `Command` has the vault and an optional local vault (`Vault?`), as in the
  PHP constructor. `Command.Execute` takes the `force` and `exit` options as
  booleans. It returns the exit code, the number of skipped secrets and the
  error reported for each unreadable secret. Its two loops are
  `SkipExisting` (drop and count the names the local vault already has) and
  `Command.SealCandidates` (seal or report each remaining secret). Each is
  proved against specification functions over the listed maps: `Readable`,
  `SkippedKeys`, `Candidates`, `Copies`, `Failures`, `SealAll`,
  `LocalAfterRun`, `Errors`, `ErrorMessage` and `ExitCode`.
- `properties.dfy` (module `DecryptToLocalProperties`): what a run
  guarantees, proved about those functions.

The skip test at line 77 is `isset($secrets[$k])`. `isset` is false for a
`null` value, so a name is skipped only when the vault can read it
(`SkippedKeys` is the readable names intersected with the local names). An
unreadable secret whose name the local vault already holds is therefore not
skipped and not counted. It is reported as an error like any other
unreadable secret. So even a local vault that holds every name, run
without `--force`, still gets the vault's unreadable secrets reported
(`FullOverlap`).

## Model

| member | source | states |
|---|---|---|
| `DecryptToLocal.Command.constructor` | src/Symfony/Bundle/FrameworkBundle/Command/SecretsDecryptToLocalCommand.php:31-34 | the command holds the vault and a possibly absent local vault |
| `DecryptToLocal.Command.Execute` | src/Symfony/Bundle/FrameworkBundle/Command/SecretsDecryptToLocalCommand.php:60-108 | with no local vault: exit code 1, nothing skipped, nothing reported, and the vault not even listed (its state, last message included, is unchanged). Otherwise the skip count is that of `SkippedKeys` (0 with force). Errors are reported for exactly the unreadable candidates, each with `ErrorMessage` over the vault's last message after listing (when the local vault is a different object). The local vault's entries end as `LocalAfterRun`. The exit code is 1 exactly when a secret was unreadable and `exit` is set. The vault's entries are left unchanged unless it is the local vault |
| `DecryptToLocal.SkipExisting` | src/Symfony/Bundle/FrameworkBundle/Command/SecretsDecryptToLocalCommand.php:74-82 | the skip loop removes exactly the local names that are readable in the vault. It counts them, and the count is at most the size of either vault |
| `DecryptToLocal.Command.SealCandidates` | src/Symfony/Bundle/FrameworkBundle/Command/SecretsDecryptToLocalCommand.php:91-101 | the copy loop seals every readable candidate and only those. It reports exactly the unreadable candidates, each with `ErrorMessage` over the vault's last message when the local vault is a different object. `hadErrors` is set exactly when some candidate was unreadable. Nothing but the local vault changes |
| `DecryptToLocal.ErrorMessage` | src/Symfony/Bundle/FrameworkBundle/Command/SecretsDecryptToLocalCommand.php:94 | when the vault has a last message, that message is the error |
| `DecryptToLocal.ExitCode` | src/Symfony/Bundle/FrameworkBundle/Command/SecretsDecryptToLocalCommand.php:103-107 | the status is 0 or 1, and it is 1 if and only if there were errors and `exit` is set |
| `Vaults.Vault.List` | src/Symfony/Bundle/FrameworkBundle/Command/SecretsDecryptToLocalCommand.php:70-76 | a listing has exactly the vault's names. Revealed, it has their values; otherwise every value is `null`. The entries stay; the last message may change |
| `Vaults.Vault.Seal` | src/Symfony/Bundle/FrameworkBundle/Command/SecretsDecryptToLocalCommand.php:99-100 | sealing overwrites one entry and leaves the other entries; the last message may change |
| `Vaults.Vault.GetLastMessage` | src/Symfony/Bundle/FrameworkBundle/Command/SecretsDecryptToLocalCommand.php:94 | returns the vault's current last message |
| `DecryptToLocalProperties.CandidateCount` | src/Symfony/Bundle/FrameworkBundle/Command/SecretsDecryptToLocalCommand.php:70-82 | the skipped count plus the secrets left for copying equals the number of secrets found. With force, all are left |
| `DecryptToLocalProperties.OutcomeCount` | src/Symfony/Bundle/FrameworkBundle/Command/SecretsDecryptToLocalCommand.php:70-101 | every secret found is accounted for once: the skip count, the number of errors and the number of secrets sealed add up to the number of secrets found |
| `DecryptToLocalProperties.Partition` | src/Symfony/Bundle/FrameworkBundle/Command/SecretsDecryptToLocalCommand.php:74-101 | skipped, reported and sealed names are pairwise disjoint. Reported and sealed names cover the candidates; with the skipped names they cover all names found. With force, the candidates are everything found |
| `DecryptToLocalProperties.WithoutForceLocalKept` | src/Symfony/Bundle/FrameworkBundle/Command/SecretsDecryptToLocalCommand.php:75-81 | without force, no name the local vault holds is sealed. Every local entry keeps its value, even where it differs from the vault's |
| `DecryptToLocalProperties.ForceCopiesEveryReadable` | src/Symfony/Bundle/FrameworkBundle/Command/SecretsDecryptToLocalCommand.php:92-101 | with force, the sealed names are exactly the readable ones. Each ends in the local vault with exactly the vault's value |
| `DecryptToLocalProperties.UnreadableIsReported` | src/Symfony/Bundle/FrameworkBundle/Command/SecretsDecryptToLocalCommand.php:92-97 | an unreadable secret is never skipped and never sealed. It is always reported with its error message, whatever force says and whatever the local vault holds |
| `DecryptToLocalProperties.OnlyFoundNamesWritten` | src/Symfony/Bundle/FrameworkBundle/Command/SecretsDecryptToLocalCommand.php:92-101 | the local vault afterwards has its old names plus sealed names, all of them readable in the vault. Local entries the vault does not list keep their values |
| `DecryptToLocalProperties.FullOverlap` | src/Symfony/Bundle/FrameworkBundle/Command/SecretsDecryptToLocalCommand.php:74-101 | when the local vault has every name and force is off, the readable names are skipped and nothing is sealed. The unreadable names are still reported, and the local vault is unchanged |
| `DecryptToLocalProperties.RerunCopiesNothing` | src/Symfony/Bundle/FrameworkBundle/Command/SecretsDecryptToLocalCommand.php:74-101 | after one run, with or without force, a second run without force seals nothing and leaves the local vault as it is |
| `DecryptToLocalProperties.ForceRunIdempotent` | src/Symfony/Bundle/FrameworkBundle/Command/SecretsDecryptToLocalCommand.php:92-101 | two runs with force leave the local vault as one does |
| `DecryptToLocalProperties.GeneratedMessagesDistinct` | src/Symfony/Bundle/FrameworkBundle/Command/SecretsDecryptToLocalCommand.php:94 | without a last message, the generated error names the secret: two different secrets never get the same message |
| `DecryptToLocalProperties.VaultMessageForEveryError` | src/Symfony/Bundle/FrameworkBundle/Command/SecretsDecryptToLocalCommand.php:94 | when the vault has a last message, every unreadable secret is reported with that same message, which need not name the secret |
| `DecryptToLocalProperties.ScenarioWithoutForce` | src/Symfony/Bundle/FrameworkBundle/Command/SecretsDecryptToLocalCommand.php:70-101 | vault {A: x, B: unreadable, C: z}, local {A: old}, no force: A is skipped, B reported, C sealed; local ends {A: old, C: z} |
| `DecryptToLocalProperties.ScenarioWithForce` | src/Symfony/Bundle/FrameworkBundle/Command/SecretsDecryptToLocalCommand.php:70-101 | the same vaults with force: B reported, A and C sealed; local ends {A: x, C: z} |
| `DecryptToLocalProperties.ScenarioEmptyVault` | src/Symfony/Bundle/FrameworkBundle/Command/SecretsDecryptToLocalCommand.php:70-107 | an empty vault: no candidates, no errors, local vault unchanged, exit code 0 |

## Left out

- Console output is not modelled. This covers the `SymfonyStyle` set-up, the
  "secrets found" comment, the skip warning and its plural forms, the
  per-secret notes, and the choice of stderr (lines 62, 72, 84-89, 100). The
  errors of line 94 are returned as a map from secret name to message, not
  printed.
- `configure` (lines 38-58) only declares the options. `force` and `exit` are
  plain booleans here.
- The real vaults (encryption, decryption, files) are not part of this model.
  A vault is a map, and `Seal` overwrites unconditionally.
- Vaults.Vault.List and Vaults.Vault.Seal: the new last message a real
  vault leaves after listing or sealing is not modelled; the contracts
  leave it unspecified. So the note printed after each seal (line 100) has
  no modelled content, and the error of line 94 is stated in terms of
  whatever message the vault holds after listing.
- DecryptToLocal.Command.Execute and DecryptToLocal.Command.SealCandidates:
  when the local vault is the vault object itself, seals may change the
  message line 94 reads between errors, so only the set of reported names
  is promised then, not each message.
- Exceptions thrown by `list` or `seal` are not modelled; both are total here.
  The source has no handler, so such an exception would end the command.
- Iteration order is not modelled. The loops pick names from a set, and the
  result does not depend on the order: the names are distinct, and the
  errors are a map keyed by name, not an ordered list of printed lines.
- The `AsCommand` attribute and the registration with the `Command` base
  class (lines 28-36) are framework plumbing.
