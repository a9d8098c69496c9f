/**
 * The unit of work (Simplebank.Infrastructure/Database/UnitOfWork.cs): a
 * two-state machine, idle or inside one database transaction, whose illegal
 * transitions throw `InvalidOperationException`.
 */
module Transactions {
  import opened Wrappers
  import opened Domain
  import opened Ledger

  datatype TxOp = BeginOp | CommitOp | RollbackOp

  const AlreadyStarted: Error := InvalidOperation("Transaction already started")
  const NotStarted: Error := InvalidOperation("Transaction is not started")

  /** One call on the unit of work: from `active`, the new state or the exception thrown. */
  function Step(active: bool, op: TxOp): (r: Result<bool, Error>)
    ensures r.Failure? <==> (op == BeginOp) == active
    ensures r.Success? ==> r.value == (op == BeginOp)
    ensures r.Failure? ==> r.error == (if active then AlreadyStarted else NotStarted)
  {
    match op
    case BeginOp => if active then Failure(AlreadyStarted) else Success(true)
    case _ => if active then Success(false) else Failure(NotStarted)
  }

  /** The state reached by a run of calls, or the first exception. */
  function Replay(active: bool, ops: seq<TxOp>): Result<bool, Error>
    decreases |ops|
  {
    if ops == [] then Success(active)
    else
      match Replay(active, ops[..|ops| - 1])
      case Failure(e) => Failure(e)
      case Success(s) => Step(s, ops[|ops| - 1])
  }

  lemma ReplayAppend(active: bool, ops: seq<TxOp>, op: TxOp)
    ensures Replay(active, ops + [op])
         == match Replay(active, ops) case Failure(e) => Failure(e) case Success(s) => Step(s, op)
  {
    assert (ops + [op])[..|ops|] == ops;
  }

  /** A run made of transactions each begun once and ended once, by commit or rollback. */
  predicate Bracketed(ops: seq<TxOp>)
    decreases |ops|
  {
    if ops == [] then true
    else
      |ops| >= 2 && ops[|ops| - 2] == BeginOp && ops[|ops| - 1] != BeginOp && Bracketed(ops[..|ops| - 2])
  }

  /** From idle, every bracketed run is legal and ends idle; so Begin; Commit; Begin is legal. */
  lemma {:induction false} BracketedRunsAreLegal(ops: seq<TxOp>)
    requires Bracketed(ops)
    ensures Replay(false, ops) == Success(false)
    decreases |ops|
  {
    if ops != [] {
      var prefix := ops[..|ops| - 2];
      BracketedRunsAreLegal(prefix);
      ReplayAppend(false, prefix, BeginOp);
      assert ops[..|ops| - 1] == prefix + [BeginOp];
      ReplayAppend(false, prefix + [BeginOp], ops[|ops| - 1]);
      assert ops == prefix + [BeginOp] + [ops[|ops| - 1]];
    }
  }

  /** Appending one more transaction keeps a run bracketed. */
  lemma BracketedExtend(ops: seq<TxOp>, ending: TxOp)
    requires Bracketed(ops) && ending != BeginOp
    ensures Bracketed(ops + [BeginOp, ending])
  {
    var run := ops + [BeginOp, ending];
    assert run[..|run| - 2] == ops;
  }

  /** Two begins in a row are illegal, whatever came before. */
  lemma DoubleBeginIsIllegal(ops: seq<TxOp>)
    requires Replay(false, ops).Success?
    ensures Replay(false, ops + [BeginOp, BeginOp]).Failure?
  {
    ReplayAppend(false, ops, BeginOp);
    assert ops + [BeginOp, BeginOp] == (ops + [BeginOp]) + [BeginOp];
    ReplayAppend(false, ops + [BeginOp], BeginOp);
  }

  /**
   * `_transaction` is null when idle; while a transaction is open it is
   * modelled by the tables as they were when it began, which is what a
   * rollback puts back. `log` records the calls that succeeded.
   */
  class UnitOfWork {
    const db: Store
    var transaction: Option<Tables>
    ghost var log: seq<TxOp>

    ghost predicate Valid()
      reads this
    {
      && Replay(false, log) == Success(transaction.Some?)
      && (transaction.Some? ==> Consistent(transaction.value))
    }

    constructor (db: Store)
      ensures this.db == db && transaction == None && log == [] && Valid()
    {
      this.db := db;
      transaction := None;
      log := [];
    }

    method Begin() returns (r: Outcome<Error>)
      requires Valid() && db.Valid()
      modifies this
      ensures Valid()
      ensures Step(old(transaction).Some?, BeginOp) == (if r.Pass? then Success(transaction.Some?) else Failure(r.error))
      ensures r.Fail? ==> transaction == old(transaction) && log == old(log)
      ensures r.Pass? ==> transaction == Some(db.Snapshot()) && log == old(log) + [BeginOp]
    {
      if transaction.Some? {
        return Fail(AlreadyStarted);
      }
      ReplayAppend(false, log, BeginOp);
      transaction := Some(db.Snapshot());
      log := log + [BeginOp];
      r := Pass;
    }

    method Commit() returns (r: Outcome<Error>)
      requires Valid()
      modifies this
      ensures Valid()
      ensures Step(old(transaction).Some?, CommitOp) == (if r.Pass? then Success(transaction.Some?) else Failure(r.error))
      ensures r.Fail? ==> transaction == old(transaction) && log == old(log)
      ensures r.Pass? ==> transaction == None && log == old(log) + [CommitOp]
    {
      if transaction.None? {
        return Fail(NotStarted);
      }
      ReplayAppend(false, log, CommitOp);
      transaction := None;
      log := log + [CommitOp];
      r := Pass;
    }

    method Rollback() returns (r: Outcome<Error>)
      requires Valid()
      modifies this, db
      ensures Valid()
      ensures Step(old(transaction).Some?, RollbackOp) == (if r.Pass? then Success(transaction.Some?) else Failure(r.error))
      ensures r.Fail? ==> transaction == old(transaction) && log == old(log) && db.Snapshot() == old(db.Snapshot())
      ensures r.Pass? ==> transaction == None && log == old(log) + [RollbackOp]
      ensures r.Pass? ==> db.Snapshot() == old(transaction).value && db.Valid()
    {
      if transaction.None? {
        return Fail(NotStarted);
      }
      ReplayAppend(false, log, RollbackOp);
      db.Restore(transaction.value);
      transaction := None;
      log := log + [RollbackOp];
      r := Pass;
    }
  }

  /**
   * The `try`/`catch` each service puts around its work once the
   * transaction has begun: commit when the work returned, roll back when
   * it threw.
   */
  method Conclude(uow: UnitOfWork, succeeded: bool)
    requires uow.Valid() && uow.db.Valid() && uow.transaction.Some?
    modifies uow, uow.db
    ensures uow.Valid() && uow.db.Valid() && uow.transaction.None?
    ensures uow.log == old(uow.log) + [if succeeded then CommitOp else RollbackOp]
    ensures uow.db.Snapshot() == if succeeded then old(uow.db.Snapshot()) else old(uow.transaction.value)
  {
    if succeeded {
      var _ := uow.Commit();
    } else {
      var _ := uow.Rollback();
    }
  }
}
