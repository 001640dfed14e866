/** Solana public keys: 32 bytes, with the all-zero key as `Pubkey::default()`. */
module Pubkeys {
  import opened Integers

  const PUBKEY_BYTES: nat := 32

  type Pubkey = k: seq<u8> | |k| == PUBKEY_BYTES witness DefaultPubkey

  /** `Pubkey::default()`, the key every record field starts out as: 32 zero bytes. */
  const DefaultPubkey: seq<u8> :=
    [0, 0, 0, 0, 0, 0, 0, 0, 0, 0, 0, 0, 0, 0, 0, 0, 0, 0, 0, 0, 0, 0, 0, 0, 0, 0, 0, 0, 0, 0, 0, 0]

  /** Whether `k` compares equal to `Pubkey::default()`: exactly when every byte is zero. */
  function IsDefault(k: Pubkey): (d: bool)
    ensures d <==> forall i :: 0 <= i < |k| ==> k[i] == 0
  {
    k == DefaultPubkey
  }

  /** A key with at least one non-zero byte: what "set" means for a key field. */
  predicate HasNonZeroByte(k: Pubkey)
  {
    exists i :: 0 <= i < |k| && k[i] != 0
  }
}
