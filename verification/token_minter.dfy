/** The policy and accounting core of the token minter: the three on-chain
    records, their validity checks, and the pause-gated `burn`, `transfer`
    and `close_token_account` operations.

    The SPL Token program calls that end each operation are foreign code;
    their result enters as a `CpiOutcome` parameter. When such a call fails
    the Solana runtime aborts the whole transaction, so every write the
    operation made to its `LocalToken` account is discarded: `Commit` models
    that runtime behaviour, and the operations themselves contain no
    rollback, exactly as in the source. */
module TokenMinterState {
  import opened Integers
  import opened Pubkeys

  /** Global configuration: the administering key, the pause authority and the pause flag. */
  datatype TokenMinter = TokenMinter(
    tokenController: Pubkey,
    pauser: Pubkey,
    paused: bool,
    bump: u8)

  /** Links a token on a remote domain to the local mint it may release. */
  datatype TokenPair = TokenPair(
    remoteDomain: u32,
    remoteToken: Pubkey,
    localToken: Pubkey,
    bump: u8)

  /** Per-mint custody record: the burn ceiling and four telemetry counters. */
  datatype LocalToken = LocalToken(
    custody: Pubkey,
    mint: Pubkey,
    burnLimitPerMessage: u64,
    messagesSent: u64,
    messagesReceived: u64,
    amountSent: u64,
    amountReceived: u64,
    bump: u8,
    custodyBump: u8)

  datatype TokenMinterError =
    | ProgramPaused
    | BurnAmountExceeded
      /** A failure reported by the SPL Token program, surfaced unchanged. */
    | TokenProgramFailed(code: nat)

  datatype Status = Ok | Err(error: TokenMinterError)

  /** What the SPL Token program call at the end of an operation returned. */
  datatype CpiOutcome = CpiSucceeded | CpiFailed(code: nat)

  /** The status of an operation together with the `LocalToken` account as
      the transaction leaves it. */
  datatype Outcome = Outcome(status: Status, token: LocalToken)

  // ---------------------------------------------------------------------
  // Validity of the records
  // ---------------------------------------------------------------------

  /** `TokenMinter::validate`: both authorities are set. */
  function ValidTokenMinter(m: TokenMinter): (valid: bool)
    ensures valid <==> HasNonZeroByte(m.tokenController) && HasNonZeroByte(m.pauser)
    ensures !valid <==> IsDefault(m.tokenController) || IsDefault(m.pauser)
  {
    !IsDefault(m.tokenController) && !IsDefault(m.pauser)
  }

  /** `TokenPair::validate`: both token keys are set; the remote domain is not checked. */
  function ValidTokenPair(p: TokenPair): (valid: bool)
    ensures valid <==> HasNonZeroByte(p.remoteToken) && HasNonZeroByte(p.localToken)
    ensures !valid <==> IsDefault(p.remoteToken) || IsDefault(p.localToken)
  {
    !IsDefault(p.remoteToken) && !IsDefault(p.localToken)
  }

  /** `LocalToken::validate`: the custody account and the mint are set; the
      limit and the counters are not checked. */
  function ValidLocalToken(t: LocalToken): (valid: bool)
    ensures valid <==> HasNonZeroByte(t.custody) && HasNonZeroByte(t.mint)
    ensures !valid <==> IsDefault(t.custody) || IsDefault(t.mint)
  {
    !IsDefault(t.custody) && !IsDefault(t.mint)
  }

  // ---------------------------------------------------------------------
  // Operations
  // ---------------------------------------------------------------------

  /** The fields an operation never writes: keys, limit and bumps. */
  predicate SameConfiguration(t: LocalToken, t': LocalToken)
  {
    && t'.custody == t.custody
    && t'.mint == t.mint
    && t'.burnLimitPerMessage == t.burnLimitPerMessage
    && t'.bump == t.bump
    && t'.custodyBump == t.custodyBump
  }

  /** A `require!` that failed: the transaction ends with `e` and no write lands. */
  function Abort(prior: LocalToken, e: TokenMinterError): Outcome
  {
    Outcome(Err(e), prior)
  }

  /** The runtime's all-or-nothing commit after the token program call: the
      staged account when the call succeeded, the prior one otherwise. */
  function Commit(prior: LocalToken, staged: LocalToken, cpi: CpiOutcome): Outcome
  {
    match cpi
    case CpiSucceeded => Outcome(Ok, staged)
    case CpiFailed(code) => Outcome(Err(TokenProgramFailed(code)), prior)
  }

  /** `TokenMinter::burn`: checks the pause flag, then the per-message
      ceiling, then bumps the sent counters and burns `amount` tokens. */
  function Burn(minter: TokenMinter, token: LocalToken, amount: u64, cpi: CpiOutcome): (r: Outcome)
    // The pause check wins over the limit check.
    ensures minter.paused ==> r == Outcome(Err(ProgramPaused), token)
    // The limit is inclusive and is a plain comparison.
    ensures !minter.paused ==> (r.status == Err(BurnAmountExceeded) <==> amount > token.burnLimitPerMessage)
    ensures r.status == Ok <==> !minter.paused && amount <= token.burnLimitPerMessage && cpi.CpiSucceeded?
    ensures !minter.paused && amount <= token.burnLimitPerMessage && cpi.CpiFailed? ==>
              r.status == Err(TokenProgramFailed(cpi.code))
    // On any failure the account is left exactly as it was.
    ensures r.status.Err? ==> r.token == token
    // On success the sent counters advance modulo 2^64 and nothing else changes.
    ensures r.status == Ok ==>
              && r.token.messagesSent as int == (token.messagesSent as int + 1) % U64_MODULUS
              && r.token.amountSent as int == (token.amountSent as int + amount as int) % U64_MODULUS
              && r.token.messagesReceived == token.messagesReceived
              && r.token.amountReceived == token.amountReceived
    ensures SameConfiguration(token, r.token)
    ensures ValidLocalToken(r.token) == ValidLocalToken(token)
  {
    if minter.paused then Abort(token, ProgramPaused)
    else if !(token.burnLimitPerMessage >= amount) then Abort(token, BurnAmountExceeded)
    else
      var staged := token.(
        messagesSent := WrappingAdd(token.messagesSent, 1),
        amountSent := WrappingAdd(token.amountSent, amount));
      Commit(token, staged, cpi)
  }

  /** `TokenMinter::transfer`: checks the pause flag, bumps the received
      counters and moves `amount` tokens out of custody. There is no limit. */
  function Transfer(minter: TokenMinter, token: LocalToken, amount: u64, cpi: CpiOutcome): (r: Outcome)
    ensures minter.paused ==> r == Outcome(Err(ProgramPaused), token)
    // Any amount, however large, goes through when not paused.
    ensures r.status == Ok <==> !minter.paused && cpi.CpiSucceeded?
    ensures !minter.paused && cpi.CpiFailed? ==> r.status == Err(TokenProgramFailed(cpi.code))
    ensures r.status.Err? ==> r.token == token
    ensures r.status == Ok ==>
              && r.token.messagesReceived as int == (token.messagesReceived as int + 1) % U64_MODULUS
              && r.token.amountReceived as int == (token.amountReceived as int + amount as int) % U64_MODULUS
              && r.token.messagesSent == token.messagesSent
              && r.token.amountSent == token.amountSent
    ensures SameConfiguration(token, r.token)
    ensures ValidLocalToken(r.token) == ValidLocalToken(token)
  {
    if minter.paused then Abort(token, ProgramPaused)
    else
      var staged := token.(
        messagesReceived := WrappingAdd(token.messagesReceived, 1),
        amountReceived := WrappingAdd(token.amountReceived, amount));
      Commit(token, staged, cpi)
  }

  /** `TokenMinter::close_token_account`: checks the pause flag and closes a
      token account. It takes no `LocalToken`, so it can write none; only
      its status is returned. */
  function CloseTokenAccount(minter: TokenMinter, cpi: CpiOutcome): (s: Status)
    ensures minter.paused ==> s == Err(ProgramPaused)
    ensures s == Ok <==> !minter.paused && cpi.CpiSucceeded?
    ensures !minter.paused && cpi.CpiFailed? ==> s == Err(TokenProgramFailed(cpi.code))
  {
    if minter.paused then Err(ProgramPaused)
    else
      match cpi
      case CpiSucceeded => Ok
      case CpiFailed(code) => Err(TokenProgramFailed(code))
  }
}
