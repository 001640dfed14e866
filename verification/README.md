# Token minter core of the Solana CCTP token messenger, in Dafny

This project models the policy and accounting core of the token minter in
the Solana CCTP (Cross-Chain Transfer Protocol) token messenger/minter
program. It covers three on-chain records:

- `TokenMinter`: the controller and pauser keys, and the global `paused` flag.
- `TokenPair`: links a remote domain's token to a local mint.
- `LocalToken`: one per local mint. It holds the custody account, the
  per-message burn ceiling, and four `u64` telemetry counters.

It also covers the three operations that gate token movement:

- `burn` sends tokens out.
- `transfer` releases tokens from custody.
- `close_token_account` closes a token account.

Files and modules:

- `integers.dfy` (`Integers`): the `u8`/`u32`/`u64` widths. `WrappingAdd`
  models Rust's `u64::wrapping_add`, spelled out modulo 2^64. The file also
  holds the modular-arithmetic lemmas the counter proofs use.
- `pubkeys.dfy` (`Pubkeys`): a `Pubkey` is 32 bytes. `Pubkey::default()` is
  the all-zero key.
- `token_minter.dfy` (`TokenMinterState`): the three records and their
  `validate` functions, plus `Burn`, `Transfer` and `CloseTokenAccount`.
- `runtime.dfy` (`Runtime`): how the operations act on accounts.
  - A transaction carries one instruction. It reads the `TokenMinter` and
    writes at most one `LocalToken`.
  - It commits all its writes or none.
  - `Run` executes a sequence of transactions.
  - Reference definitions say, independently of the operations, which
    instructions commit and what each mint's counters must then show.
- `scenarios.dfy` (`Scenarios`): concrete cases.
  - A burn exactly at the ceiling succeeds; one unit more is refused.
  - Counters wrap at `u64::MAX`.
  - Pausing refuses every operation.
  - A failed token program call leaves no trace.
  - The default key fails validation.

The SPL Token program calls that end each operation are foreign code. Their
result is a `CpiOutcome` parameter: success, or a failure code. When that
call fails, the Solana runtime aborts the whole transaction. This discards
the counter writes the operation has already made to its `&mut LocalToken`.
The operation's own code contains no rollback. The model matches that split:

- `Burn` and `Transfer` stage the counter update exactly as the code does.
- `Commit` models the runtime. It keeps the staged record on success and
  the prior record on failure.

What the operations check, as written:

- They raise only `ProgramPaused`, `BurnAmountExceeded` and the token
  program's error.
- None of them calls `validate` or looks up a pair.
- The ceiling check is a plain `>=` comparison of two `u64` values
  (`require_gte!`), so an amount equal to the ceiling is accepted.
- `close_token_account` takes no `LocalToken`, so it writes none.

## Model

| member | source | states |
|---|---|---|
| Integers.WrappingAdd | programs/token-messenger-minter/src/token_minter/state.rs:62-63 | the wrapped sum equals the exact sum when that is below 2^64 and the sum minus 2^64 otherwise; the result is smaller than the first operand exactly when the addition overflowed |
| Integers.WrappingIncrementAtMax | programs/token-messenger-minter/src/token_minter/state.rs:62 | a counter at `u64::MAX` incremented by one wraps to 0 rather than failing; below the maximum it goes up by exactly one |
| Pubkeys.IsDefault | programs/token-messenger-minter/src/token_minter/state.rs:43 | a key equals `Pubkey::default()` exactly when all 32 of its bytes are zero |
| TokenMinterState.ValidTokenMinter | programs/token-messenger-minter/src/token_minter/state.rs:42-44 | true iff both `token_controller` and `pauser` have a non-zero byte; false iff either one is the default key |
| TokenMinterState.ValidTokenPair | programs/token-messenger-minter/src/token_minter/state.rs:129-131 | true iff both `remote_token` and `local_token` are non-default; false iff either one is the default key |
| TokenMinterState.ValidLocalToken | programs/token-messenger-minter/src/token_minter/state.rs:135-137 | true iff both `custody` and `mint` are non-default; false iff either one is the default key |
| TokenMinterState.Burn | programs/token-messenger-minter/src/token_minter/state.rs:46-75 | paused yields `ProgramPaused` with the record unchanged, even over the ceiling; unpaused, `BurnAmountExceeded` iff amount > ceiling; success iff unpaused, amount <= ceiling and the token program succeeds; a token program failure surfaces its code; any failure leaves the record unchanged; success advances `messages_sent` by 1 and `amount_sent` by the amount modulo 2^64, leaves the received counters alone and never changes keys, ceiling or bumps |
| TokenMinterState.Transfer | programs/token-messenger-minter/src/token_minter/state.rs:77-104 | paused yields `ProgramPaused` with the record unchanged; success iff unpaused and the token program succeeds, for any amount (no ceiling); any failure leaves the record unchanged; success advances `messages_received` by 1 and `amount_received` by the amount modulo 2^64, leaves the sent counters alone and never changes keys, ceiling or bumps |
| TokenMinterState.CloseTokenAccount | programs/token-messenger-minter/src/token_minter/state.rs:106-125 | paused yields `ProgramPaused`; success iff unpaused and the token program succeeds; a token program failure surfaces its code; no record is written |
| Runtime.Execute | programs/token-messenger-minter/src/token_minter/state.rs:46-125 | one transaction never changes the `TokenMinter` (taken as `&self`) or the set of accounts; it changes no `LocalToken` other than the one its instruction names; it never changes any record's keys, ceiling or bumps; a failed transaction changes nothing; paused, it fails with `ProgramPaused` and changes nothing |
| Runtime.Run | programs/token-messenger-minter/src/token_minter/state.rs:46-125 | a sequence of transactions yields one status per instruction; it leaves the minter and the set of accounts as they were; it never changes any record's keys, ceiling or bumps |
| Runtime.ExecuteStatusIsPolicy | programs/token-messenger-minter/src/token_minter/state.rs:55-60 | every transaction's status equals the reference verdict: pause first, then the inclusive ceiling for burns only, then the token program's outcome |
| Runtime.ExecuteCounters | programs/token-messenger-minter/src/token_minter/state.rs:62-89 | one transaction bumps a mint's sent counters iff it is a committing burn of that mint, and its received counters iff it is a committing transfer of it, each with wrapping addition |
| Runtime.PausedRunIsInert | programs/token-messenger-minter/src/token_minter/state.rs:55-113 | while paused, every transaction in a run fails with `ProgramPaused` and the accounts end exactly as they began |
| Runtime.RunVerdictsAreIndependent | programs/token-messenger-minter/src/token_minter/state.rs:55-60 | every transaction in a run gets the status it would get alone against the initial accounts, because the counters never feed back into the policy |
| Runtime.UntouchedTokenIsUnchanged | programs/token-messenger-minter/src/token_minter/state.rs:46-125 | a `LocalToken` that no instruction of a run names ends exactly as it began |
| Runtime.RunSentCounters | programs/token-messenger-minter/src/token_minter/state.rs:62-63 | after any run, a mint's `messages_sent` and `amount_sent` equal their initial values plus the number and the total of that mint's committed burns, reduced modulo 2^64 |
| Runtime.RunReceivedCounters | programs/token-messenger-minter/src/token_minter/state.rs:88-89 | after any run, a mint's `messages_received` and `amount_received` equal their initial values plus the number and the total of that mint's committed transfers, reduced modulo 2^64 |
| Runtime.NoBurnsLeaveSentCountersAlone | programs/token-messenger-minter/src/token_minter/state.rs:86-89 | a run containing no burn of a mint leaves that mint's sent counters exactly as they were: transfers and closes never touch them |
| Runtime.NoTransfersLeaveReceivedCountersAlone | programs/token-messenger-minter/src/token_minter/state.rs:55-63 | a run containing no transfer of a mint leaves that mint's received counters exactly as they were: burns and closes never touch them |
| Scenarios.BurnAtAndAboveLimit | programs/token-messenger-minter/src/token_minter/state.rs:56-63 | with a ceiling of 1000 and zero counters, a burn of 1000 succeeds with counters 1 and 1000; a burn of 1001 fails with `BurnAmountExceeded` and changes nothing |
| Scenarios.CountersWrapAtMax | programs/token-messenger-minter/src/token_minter/state.rs:62-89 | sent and received counters at `u64::MAX` wrap to 0 on the next successful burn or transfer of 1 |
| Scenarios.PausedRefusesEverything | programs/token-messenger-minter/src/token_minter/state.rs:55-113 | paused, a burn over the ceiling, a transfer and a close all report `ProgramPaused` and change nothing |
| Scenarios.FailedBurnLeavesNoTrace | programs/token-messenger-minter/src/token_minter/state.rs:62-74 | a burn whose token program call fails reports that failure and leaves the counters as they were |
| Scenarios.DefaultKeysAreInvalid | programs/token-messenger-minter/src/token_minter/state.rs:42-44 | a minter with a default pauser and a pair with a default remote token are invalid; records whose keys have a non-zero byte are valid |

## Left out

- The SPL Token program calls are not modelled (`anchor_spl::token::burn`,
  `transfer`, `close_account`). Neither is the construction of their
  `CpiContext`. They are calls into another program, so only their
  success or failure is a parameter. The accounts passed to them are not
  modelled: mint, source, destination, receiver and authority.
- PDA signer seeds are not modelled (`b"token_minter"` with the minter's
  `bump`). The bumps are carried as plain fields and never derived.
- Anchor's `#[account]` and `InitSpace` attributes are not modelled. Nor are
  account serialization, the space layout or the account discriminators.
  These are framework plumbing.
- There is no lookup of a `TokenPair` by `(remote_domain, remote_token)`.
  Uniqueness of pairings is not modelled either. The modelled file has no
  such logic; only `TokenPair::validate` is modelled.
- Pause toggling is not modelled. Nor is checking the controller or pauser
  authority, nor the instruction handlers that call these operations. They
  live outside the modelled file.
- The runtime's all-or-nothing commit is modelled, by `Commit` and
  `Execute`. Concurrent transactions are not: the Solana runtime serializes
  writes to an account.
- `Pubkey::default()` comes from the Solana SDK, which is not part of this
  model. Here it is the 32-byte all-zero key.
