/** The token minter's operations seen from the accounts they touch. A
    transaction carries one instruction; it reads the single `TokenMinter`
    account (borrowed `&self`), writes at most the one `LocalToken` account it
    names, and either commits completely or leaves every account as it was.
    `Run` executes a sequence of such transactions one after another. */
module Runtime {
  import opened Integers
  import opened Pubkeys
  import opened TokenMinterState

  /** The accounts the operations can see: the minter and the custody
      records, keyed by mint. */
  datatype Accounts = Accounts(minter: TokenMinter, tokens: map<Pubkey, LocalToken>)

  datatype Instruction =
    | BurnIx(mint: Pubkey, amount: u64, cpi: CpiOutcome)
    | TransferIx(mint: Pubkey, amount: u64, cpi: CpiOutcome)
    | CloseIx(cpi: CpiOutcome)

  /** Every `LocalToken` an instruction names is one of the given accounts
      (the account is passed in by the caller, so it always exists). */
  predicate WellTargeted(keys: set<Pubkey>, ixs: seq<Instruction>)
  {
    forall i :: 0 <= i < |ixs| ==> ixs[i].CloseIx? || ixs[i].mint in keys
  }

  /** Whether `ix` writes the `LocalToken` account of mint `k` when it commits. */
  predicate Writes(ix: Instruction, k: Pubkey)
  {
    !ix.CloseIx? && ix.mint == k
  }

  /** One transaction holding one instruction. */
  function Execute(a: Accounts, ix: Instruction): (r: (Status, Accounts))
    requires WellTargeted(a.tokens.Keys, [ix])
    // The minter is only read.
    ensures r.1.minter == a.minter
    ensures r.1.tokens.Keys == a.tokens.Keys
    // No account other than the named `LocalToken` changes.
    ensures forall k :: k in a.tokens && !Writes(ix, k) ==> r.1.tokens[k] == a.tokens[k]
    ensures forall k :: k in a.tokens ==> SameConfiguration(a.tokens[k], r.1.tokens[k])
    // A failed transaction changes nothing.
    ensures r.0.Err? ==> r.1 == a
    ensures a.minter.paused ==> r == (Err(ProgramPaused), a)
  {
    assert ix in [ix];
    match ix
    case BurnIx(mint, amount, cpi) =>
      var o := Burn(a.minter, a.tokens[mint], amount, cpi);
      (o.status, a.(tokens := a.tokens[mint := o.token]))
    case TransferIx(mint, amount, cpi) =>
      var o := Transfer(a.minter, a.tokens[mint], amount, cpi);
      (o.status, a.(tokens := a.tokens[mint := o.token]))
    case CloseIx(cpi) =>
      (CloseTokenAccount(a.minter, cpi), a)
  }

  /** Executes the transactions in order, collecting each one's status. */
  function Run(a: Accounts, ixs: seq<Instruction>): (r: (seq<Status>, Accounts))
    requires WellTargeted(a.tokens.Keys, ixs)
    ensures |r.0| == |ixs|
    ensures r.1.minter == a.minter
    ensures r.1.tokens.Keys == a.tokens.Keys
    ensures forall k :: k in a.tokens ==> SameConfiguration(a.tokens[k], r.1.tokens[k])
    decreases |ixs|
  {
    if ixs == [] then ([], a)
    else
      assert ixs[0] in ixs;
      var (s, a1) := Execute(a, ixs[0]);
      assert WellTargeted(a1.tokens.Keys, ixs[1..]) by {
        forall i | 0 <= i < |ixs| - 1
          ensures ixs[1..][i].CloseIx? || ixs[1..][i].mint in a1.tokens.Keys
        {
          assert ixs[1..][i] == ixs[i + 1];
        }
      }
      var (ss, a2) := Run(a1, ixs[1..]);
      ([s] + ss, a2)
  }

  // ---------------------------------------------------------------------
  // Reference accounting: what the counters of one mint should show
  // ---------------------------------------------------------------------

  /** Whether `ix` is a burn of mint `k` that the policy admits and the token
      program carries out, given the minter and that mint's ceiling. */
  predicate BurnCommits(m: TokenMinter, limit: u64, k: Pubkey, ix: Instruction)
  {
    ix.BurnIx? && ix.mint == k && !m.paused && ix.amount <= limit && ix.cpi.CpiSucceeded?
  }

  /** Whether `ix` is a transfer out of the custody of mint `k` that goes through. */
  predicate TransferCommits(m: TokenMinter, k: Pubkey, ix: Instruction)
  {
    ix.TransferIx? && ix.mint == k && !m.paused && ix.cpi.CpiSucceeded?
  }

  function CommittedBurns(m: TokenMinter, limit: u64, k: Pubkey, ixs: seq<Instruction>): nat
  {
    if ixs == [] then 0
    else (if BurnCommits(m, limit, k, ixs[0]) then 1 else 0) + CommittedBurns(m, limit, k, ixs[1..])
  }

  function BurnedAmount(m: TokenMinter, limit: u64, k: Pubkey, ixs: seq<Instruction>): nat
  {
    if ixs == [] then 0
    else (if BurnCommits(m, limit, k, ixs[0]) then ixs[0].amount as nat else 0) + BurnedAmount(m, limit, k, ixs[1..])
  }

  function CommittedTransfers(m: TokenMinter, k: Pubkey, ixs: seq<Instruction>): nat
  {
    if ixs == [] then 0
    else (if TransferCommits(m, k, ixs[0]) then 1 else 0) + CommittedTransfers(m, k, ixs[1..])
  }

  function TransferredAmount(m: TokenMinter, k: Pubkey, ixs: seq<Instruction>): nat
  {
    if ixs == [] then 0
    else (if TransferCommits(m, k, ixs[0]) then ixs[0].amount as nat else 0) + TransferredAmount(m, k, ixs[1..])
  }

  // ---------------------------------------------------------------------
  // Properties of runs
  // ---------------------------------------------------------------------

  /** The ceiling that governs `ix`: that of the mint it names (a close names none). */
  function LimitFor(a: Accounts, ix: Instruction): u64
    requires WellTargeted(a.tokens.Keys, [ix])
  {
    assert ix in [ix];
    if ix.CloseIx? then 0 else a.tokens[ix.mint].burnLimitPerMessage
  }

  /** The policy in one place: pause first, then the inclusive ceiling (for
      burns only), then whatever the token program reports. */
  function Verdict(m: TokenMinter, limit: u64, ix: Instruction): Status
  {
    if m.paused then Err(ProgramPaused)
    else if ix.BurnIx? && ix.amount > limit then Err(BurnAmountExceeded)
    else if ix.cpi.CpiFailed? then Err(TokenProgramFailed(ix.cpi.code))
    else Ok
  }

  /** Every transaction's status is the policy verdict on the minter, the
      ceiling of the named mint and the token program's outcome. */
  lemma ExecuteStatusIsPolicy(a: Accounts, ix: Instruction)
    requires WellTargeted(a.tokens.Keys, [ix])
    ensures Execute(a, ix).0 == Verdict(a.minter, LimitFor(a, ix), ix)
  {
    assert ix in [ix];
  }

  /** While the minter is paused, every transaction fails with
      `ProgramPaused` and the accounts never change. */
  lemma {:induction false} PausedRunIsInert(a: Accounts, ixs: seq<Instruction>)
    requires WellTargeted(a.tokens.Keys, ixs)
    requires a.minter.paused
    ensures Run(a, ixs).1 == a
    ensures forall i :: 0 <= i < |ixs| ==> Run(a, ixs).0[i] == Err(ProgramPaused)
    decreases |ixs|
  {
    if ixs != [] {
      RunTailTargeted(a, ixs);
      assert Execute(a, ixs[0]).1 == a;
      PausedRunIsInert(a, ixs[1..]);
      var r := Run(a, ixs);
      forall i | 0 <= i < |ixs|
        ensures r.0[i] == Err(ProgramPaused)
      {
        if i > 0 {
          assert r.0[i] == Run(a, ixs[1..]).0[i - 1];
        }
      }
    }
  }

  /** Counters never feed back into the policy: every transaction of a run
      gets the verdict it would get if it ran alone against the initial
      accounts. The token program's part of each verdict is fixed by the
      instruction itself; the content here is that the pause flag and the
      ceiling, the only record state the checks read, never change. */
  lemma {:induction false} RunVerdictsAreIndependent(a: Accounts, ixs: seq<Instruction>)
    requires WellTargeted(a.tokens.Keys, ixs)
    ensures forall i :: 0 <= i < |ixs| ==>
              (assert ixs[i] in ixs; Run(a, ixs).0[i] == Execute(a, ixs[i]).0)
    decreases |ixs|
  {
    if ixs != [] {
      RunTailTargeted(a, ixs);
      var a1 := Execute(a, ixs[0]).1;
      RunVerdictsAreIndependent(a1, ixs[1..]);
      var r := Run(a, ixs);
      forall i | 0 <= i < |ixs|
        ensures (assert ixs[i] in ixs; r.0[i] == Execute(a, ixs[i]).0)
      {
        assert ixs[i] in ixs;
        if i > 0 {
          var ix := ixs[i];
          assert ix == ixs[1..][i - 1];
          assert r.0[i] == Run(a1, ixs[1..]).0[i - 1];
          ExecuteStatusIsPolicy(a, ix);
          ExecuteStatusIsPolicy(a1, ix);
          if !ix.CloseIx? {
            assert SameConfiguration(a.tokens[ix.mint], a1.tokens[ix.mint]);
          }
          assert LimitFor(a1, ix) == LimitFor(a, ix);
        }
      }
    }
  }

  /** A mint that no instruction names keeps its `LocalToken` account unchanged. */
  lemma {:induction false} UntouchedTokenIsUnchanged(a: Accounts, ixs: seq<Instruction>, k: Pubkey)
    requires WellTargeted(a.tokens.Keys, ixs)
    requires k in a.tokens
    requires forall i :: 0 <= i < |ixs| ==> !Writes(ixs[i], k)
    ensures Run(a, ixs).1.tokens[k] == a.tokens[k]
    decreases |ixs|
  {
    if ixs != [] {
      RunTailTargeted(a, ixs);
      var a1 := Execute(a, ixs[0]).1;
      forall i | 0 <= i < |ixs| - 1
        ensures !Writes(ixs[1..][i], k)
      {
        assert ixs[1..][i] == ixs[i + 1];
      }
      UntouchedTokenIsUnchanged(a1, ixs[1..], k);
    }
  }

  /** One transaction moves the counters of mint `k` exactly as the
      reference predicates say: a committed burn bumps the sent pair, a
      committed transfer the received pair, anything else neither. */
  lemma ExecuteCounters(a: Accounts, ix: Instruction, k: Pubkey)
    requires WellTargeted(a.tokens.Keys, [ix])
    requires k in a.tokens
    ensures
      var t, t1 := a.tokens[k], Execute(a, ix).1.tokens[k];
      var burned, moved := BurnCommits(a.minter, t.burnLimitPerMessage, k, ix), TransferCommits(a.minter, k, ix);
      && t1.messagesSent == (if burned then WrappingAdd(t.messagesSent, 1) else t.messagesSent)
      && t1.amountSent == (if burned then WrappingAdd(t.amountSent, ix.amount) else t.amountSent)
      && t1.messagesReceived == (if moved then WrappingAdd(t.messagesReceived, 1) else t.messagesReceived)
      && t1.amountReceived == (if moved then WrappingAdd(t.amountReceived, ix.amount) else t.amountReceived)
  {
    assert ix in [ix];
  }

  /** The tail of a well-targeted sequence, after its first transaction ran, is well targeted. */
  lemma RunTailTargeted(a: Accounts, ixs: seq<Instruction>)
    requires WellTargeted(a.tokens.Keys, ixs)
    requires ixs != []
    ensures WellTargeted(a.tokens.Keys, [ixs[0]])
    ensures WellTargeted(Execute(a, ixs[0]).1.tokens.Keys, ixs[1..])
    ensures Run(a, ixs).1 == Run(Execute(a, ixs[0]).1, ixs[1..]).1
  {
    assert ixs[0] in ixs;
    forall i | 0 <= i < |ixs| - 1
      ensures ixs[1..][i].CloseIx? || ixs[1..][i].mint in a.tokens.Keys
    {
      assert ixs[1..][i] == ixs[i + 1];
    }
  }

  /** The sent counters of mint `k` after a run equal those before, plus the
      number and the total of the burns of `k` that committed, reduced
      modulo 2^64: they wrap rather than fail, and a failed burn leaves no
      trace in them. */
  lemma {:induction false} RunSentCounters(a: Accounts, ixs: seq<Instruction>, k: Pubkey)
    requires WellTargeted(a.tokens.Keys, ixs)
    requires k in a.tokens
    ensures
      var t, t' := a.tokens[k], Run(a, ixs).1.tokens[k];
      && Advanced(t.messagesSent, CommittedBurns(a.minter, t.burnLimitPerMessage, k, ixs), t'.messagesSent)
      && Advanced(t.amountSent, BurnedAmount(a.minter, t.burnLimitPerMessage, k, ixs), t'.amountSent)
    decreases |ixs|
  {
    var t := a.tokens[k];
    var limit := t.burnLimitPerMessage;
    if ixs == [] {
      assert Run(a, ixs).1 == a;
    } else {
      RunTailTargeted(a, ixs);
      var ix := ixs[0];
      var a1 := Execute(a, ix).1;
      var t1, t' := a1.tokens[k], Run(a1, ixs[1..]).1.tokens[k];
      var burned := BurnCommits(a.minter, limit, k, ix);
      ExecuteCounters(a, ix, k);
      RunSentCounters(a1, ixs[1..], k);
      assert a1.minter == a.minter && t1.burnLimitPerMessage == limit;
      assert Run(a, ixs).1.tokens[k] == t';
      AdvanceStep(t.messagesSent, 1, burned, t1.messagesSent, CommittedBurns(a.minter, limit, k, ixs[1..]), t'.messagesSent,
                  CommittedBurns(a.minter, limit, k, ixs));
      var amount := if ix.CloseIx? then 0 else ix.amount;
      AdvanceStep(t.amountSent, amount, burned, t1.amountSent, BurnedAmount(a.minter, limit, k, ixs[1..]), t'.amountSent,
                  BurnedAmount(a.minter, limit, k, ixs));
    }
  }

  /** The received counters of mint `k` after a run equal those before, plus
      the number and the total of the transfers of `k` that committed,
      reduced modulo 2^64. */
  lemma {:induction false} RunReceivedCounters(a: Accounts, ixs: seq<Instruction>, k: Pubkey)
    requires WellTargeted(a.tokens.Keys, ixs)
    requires k in a.tokens
    ensures
      var t, t' := a.tokens[k], Run(a, ixs).1.tokens[k];
      && Advanced(t.messagesReceived, CommittedTransfers(a.minter, k, ixs), t'.messagesReceived)
      && Advanced(t.amountReceived, TransferredAmount(a.minter, k, ixs), t'.amountReceived)
    decreases |ixs|
  {
    var t := a.tokens[k];
    if ixs == [] {
      assert Run(a, ixs).1 == a;
    } else {
      RunTailTargeted(a, ixs);
      var ix := ixs[0];
      var a1 := Execute(a, ix).1;
      var t1, t' := a1.tokens[k], Run(a1, ixs[1..]).1.tokens[k];
      var moved := TransferCommits(a.minter, k, ix);
      ExecuteCounters(a, ix, k);
      RunReceivedCounters(a1, ixs[1..], k);
      assert a1.minter == a.minter;
      assert Run(a, ixs).1.tokens[k] == t';
      AdvanceStep(t.messagesReceived, 1, moved, t1.messagesReceived, CommittedTransfers(a.minter, k, ixs[1..]), t'.messagesReceived,
                  CommittedTransfers(a.minter, k, ixs));
      var amount := if ix.CloseIx? then 0 else ix.amount;
      AdvanceStep(t.amountReceived, amount, moved, t1.amountReceived, TransferredAmount(a.minter, k, ixs[1..]), t'.amountReceived,
                  TransferredAmount(a.minter, k, ixs));
    }
  }

  /** The sent counters of a mint move only through burns of that mint:
      transfers and closes never touch them. */
  lemma {:induction false} NoBurnsLeaveSentCountersAlone(a: Accounts, ixs: seq<Instruction>, k: Pubkey)
    requires WellTargeted(a.tokens.Keys, ixs)
    requires k in a.tokens
    requires forall i :: 0 <= i < |ixs| ==> !(ixs[i].BurnIx? && ixs[i].mint == k)
    ensures Run(a, ixs).1.tokens[k].messagesSent == a.tokens[k].messagesSent
    ensures Run(a, ixs).1.tokens[k].amountSent == a.tokens[k].amountSent
  {
    var t, t' := a.tokens[k], Run(a, ixs).1.tokens[k];
    RunSentCounters(a, ixs, k);
    NoBurnsCommitNone(a.minter, t.burnLimitPerMessage, k, ixs);
    AdvancedByNothing(t.messagesSent, t'.messagesSent);
    AdvancedByNothing(t.amountSent, t'.amountSent);
  }

  lemma {:induction false} NoBurnsCommitNone(m: TokenMinter, limit: u64, k: Pubkey, ixs: seq<Instruction>)
    requires forall i :: 0 <= i < |ixs| ==> !(ixs[i].BurnIx? && ixs[i].mint == k)
    ensures CommittedBurns(m, limit, k, ixs) == 0 && BurnedAmount(m, limit, k, ixs) == 0
    decreases |ixs|
  {
    if ixs != [] {
      forall i | 0 <= i < |ixs| - 1
        ensures !(ixs[1..][i].BurnIx? && ixs[1..][i].mint == k)
      {
        assert ixs[1..][i] == ixs[i + 1];
      }
      NoBurnsCommitNone(m, limit, k, ixs[1..]);
    }
  }

  /** The received counters of a mint move only through transfers of that
      mint: burns and closes never touch them. */
  lemma {:induction false} NoTransfersLeaveReceivedCountersAlone(a: Accounts, ixs: seq<Instruction>, k: Pubkey)
    requires WellTargeted(a.tokens.Keys, ixs)
    requires k in a.tokens
    requires forall i :: 0 <= i < |ixs| ==> !(ixs[i].TransferIx? && ixs[i].mint == k)
    ensures Run(a, ixs).1.tokens[k].messagesReceived == a.tokens[k].messagesReceived
    ensures Run(a, ixs).1.tokens[k].amountReceived == a.tokens[k].amountReceived
  {
    var t, t' := a.tokens[k], Run(a, ixs).1.tokens[k];
    RunReceivedCounters(a, ixs, k);
    NoTransfersCommitNone(a.minter, k, ixs);
    AdvancedByNothing(t.messagesReceived, t'.messagesReceived);
    AdvancedByNothing(t.amountReceived, t'.amountReceived);
  }

  lemma {:induction false} NoTransfersCommitNone(m: TokenMinter, k: Pubkey, ixs: seq<Instruction>)
    requires forall i :: 0 <= i < |ixs| ==> !(ixs[i].TransferIx? && ixs[i].mint == k)
    ensures CommittedTransfers(m, k, ixs) == 0 && TransferredAmount(m, k, ixs) == 0
    decreases |ixs|
  {
    if ixs != [] {
      forall i | 0 <= i < |ixs| - 1
        ensures !(ixs[1..][i].TransferIx? && ixs[1..][i].mint == k)
      {
        assert ixs[1..][i] == ixs[i + 1];
      }
      NoTransfersCommitNone(m, k, ixs[1..]);
    }
  }
}
