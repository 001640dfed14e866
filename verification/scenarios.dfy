/** Concrete runs of the token minter's operations on small records: the
    inclusive ceiling, counter wrap-around at `u64::MAX`, and the pause
    switch. */
module Scenarios {
  import opened Integers
  import opened Pubkeys
  import opened TokenMinterState

  /** A key that is not the default: its first byte is one. */
  const SomeKey: Pubkey := DefaultPubkey[0 := 1]

  const Running: TokenMinter := TokenMinter(SomeKey, SomeKey, false, 255)
  const Stopped: TokenMinter := Running.(paused := true)

  /** A fresh custody record with a ceiling of 1000 and zero counters. */
  const Fresh: LocalToken := LocalToken(SomeKey, SomeKey, 1000, 0, 0, 0, 0, 254, 253)

  /** A burn of exactly the ceiling goes through; one unit more is refused
      and leaves the counters where they were. */
  lemma BurnAtAndAboveLimit()
    ensures Burn(Running, Fresh, 1000, CpiSucceeded)
              == Outcome(Ok, Fresh.(messagesSent := 1, amountSent := 1000))
    ensures Burn(Running, Fresh, 1001, CpiSucceeded) == Outcome(Err(BurnAmountExceeded), Fresh)
  {
  }

  /** Counters sitting at `u64::MAX` wrap to zero on the next operation. */
  lemma CountersWrapAtMax()
    ensures var full := Fresh.(messagesSent := U64_MAX, amountSent := U64_MAX);
            Burn(Running, full, 1, CpiSucceeded) == Outcome(Ok, full.(messagesSent := 0, amountSent := 0))
    ensures var full := Fresh.(messagesReceived := U64_MAX, amountReceived := U64_MAX);
            Transfer(Running, full, 1, CpiSucceeded) == Outcome(Ok, full.(messagesReceived := 0, amountReceived := 0))
  {
  }

  /** Paused, every operation reports `ProgramPaused`, even a burn over the
      ceiling and even when the token program would have succeeded. */
  lemma PausedRefusesEverything()
    ensures Burn(Stopped, Fresh, 5000, CpiSucceeded) == Outcome(Err(ProgramPaused), Fresh)
    ensures Transfer(Stopped, Fresh, 5000, CpiSucceeded) == Outcome(Err(ProgramPaused), Fresh)
    ensures CloseTokenAccount(Stopped, CpiSucceeded) == Err(ProgramPaused)
  {
  }

  /** A token program failure after the counters were staged surfaces its
      error and leaves the record as it was. */
  lemma FailedBurnLeavesNoTrace()
    ensures Burn(Running, Fresh, 10, CpiFailed(1)) == Outcome(Err(TokenProgramFailed(1)), Fresh)
  {
  }

  /** The default key fails every validity check; a set key passes. */
  lemma DefaultKeysAreInvalid()
    ensures !ValidTokenMinter(Running.(pauser := DefaultPubkey))
    ensures ValidTokenMinter(Running)
    ensures !ValidTokenPair(TokenPair(7, DefaultPubkey, SomeKey, 0))
    ensures ValidLocalToken(Fresh)
  {
    assert SomeKey[0] == 1;
  }
}
