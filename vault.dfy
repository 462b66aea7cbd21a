/**
 * The secret store both sides of `secrets:decrypt-to-local` talk to. The
 * encryption, decryption and file persistence behind a real vault are not
 * modelled: a vault is the map it would list with values revealed, where a
 * secret that cannot be decrypted maps to `None`, plus the single-slot
 * diagnostic message the vault exposes.
 */
module Vaults {

  datatype Option<T> = None | Some(value: T)

  /** Secret name to value; `None` is PHP's `null` for an unreadable secret. */
  type Secrets = map<string, Option<string>>

  class Vault {
    var entries: Secrets
    var lastMessage: Option<string>

    constructor (entries: Secrets, lastMessage: Option<string>)
      ensures this.entries == entries && this.lastMessage == lastMessage
    {
      this.entries := entries;
      this.lastMessage := lastMessage;
    }

    /**
     * Every secret of the vault. With `withValues` the values come back (an
     * unreadable one as `None`); without it only the names do, each
     * mapped to `None`. Listing may leave a new last message (a real vault
     * records its decryption failures there), so the message is unspecified
     * afterwards; the entries stay as they were.
     */
    method List(withValues: bool) returns (r: Secrets)
      modifies this`lastMessage
      ensures r.Keys == entries.Keys
      ensures withValues ==> forall k :: k in r ==> r[k] == entries[k]
      ensures !withValues ==> forall k :: k in r ==> r[k] == None
    {
      if withValues {
        r := entries;
      } else {
        r := map k | k in entries :: None;
      }
    }

    /**
     * Stores `value` under `name`, overwriting whatever was there. The
     * vault may report on the write in its last message, which is
     * unspecified afterwards.
     */
    method Seal(name: string, value: string)
      modifies this
      ensures entries == old(entries)[name := Some(value)]
    {
      entries := entries[name := Some(value)];
    }

    method GetLastMessage() returns (m: Option<string>)
      ensures m == lastMessage
    {
      m := lastMessage;
    }
  }
}
