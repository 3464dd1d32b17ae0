/** Freezing and unfreezing an asset across ledger and database. */
module Saga {
  import opened Bytes
  import opened Ledger
  import opened LedgerTheorems
  import opened Formats

  /** The columns of an asset row that the ledger also knows; the value is a NUMERIC(20, 4) or NULL. */
  datatype Row = Row(status: string, currentValue: Option<real>, ownerId: string, fabricTxId: string, block: Option<int>)

  type Rows = map<string, Row>

  // ---------------------------------------------------------------- the ledger client

  datatype BlockField = NoBlock | Block(number: int) | Garbled

  /** What a submit comes back with; Garbled is a block number that `int` refuses. */
  datatype Reply = Raises | NotDict | Dict(txId: string, block: BlockField)

  /** One submission: who signs it, how it answers, and whether a raising one had committed after all. */
  datatype Submit = Submit(ctx: Ctx, reply: Reply, committedAnyway: bool)

  predicate Commits(w: World, call: Call, submit: Submit) {
    Allowed(w, submit.ctx, call) && (submit.reply.Raises? ==> submit.committedAnyway)
  }

  function Submitted(w: World, call: Call, submit: Submit): World {
    if Commits(w, call, submit) then Invoke(w, submit.ctx, call) else w
  }

  /** A refused transaction always raises. */
  function ReplyTo(w: World, call: Call, submit: Submit): Reply {
    if Allowed(w, submit.ctx, call) then submit.reply else Raises
  }

  // ---------------------------------------------------------------- freeze

  /**
   * What goes wrong outside the ledger, and the compensating submission. A database commit that raises may
   * have taken effect; the tail is the refresh and the response built after the commit.
   */
  datatype Faults = Faults(
    readRaises: bool, commitRaises: bool, commitTook: bool, rollbackRaises: bool, tailRaises: bool, undo: Submit)

  const COMPENSATION := "SAGA_COMPENSATION: DB commit failure rollback"

  /** The state an operation leaves behind, and whether it raised. */
  datatype Result = Result(world: World, rows: Rows, raised: bool)

  /** The row as the session writes it. */
  function WrittenRow(row: Row, status: string, txId: string, block: BlockField): Row {
    row.(status := status, fabricTxId := txId, block := if block.Block? then Some(block.number) else None)
  }

  /** The response model refuses a NULL value, after everything has been committed. */
  predicate ResponseRaises(row: Row, faults: Faults) { faults.tailRaises || row.currentValue.None? }

  function FreezeSaga(w: World, rows: Rows, id: string, reason: string, reference: string,
                      submit: Submit, faults: Faults): Result {
    var call := Freeze(id, reason, reference);
    var w1 := Submitted(w, call, submit);
    match ReplyTo(w, call, submit)
    case Raises => Result(w1, rows, true)
    case NotDict => Result(w1, rows, true)
    case Dict(txId, block) =>
      if block.Garbled? || faults.readRaises || id !in rows then Result(w1, rows, true)
      else
        var written := rows[id := WrittenRow(rows[id], GELE, txId, block)];
        var kept := if faults.commitRaises && !faults.commitTook then rows else written;
        if !faults.commitRaises then Result(w1, kept, ResponseRaises(rows[id], faults))
        else if faults.rollbackRaises then Result(w1, kept, true)
        else Result(Submitted(w1, Unfreeze(id, COMPENSATION), faults.undo), kept, true)
  }

  /** The asset service over its two stores. */
  class AssetService {
    var world: World
    var rows: Rows

    constructor (world: World, rows: Rows)
      ensures this.world == world && this.rows == rows
    {
      this.world, this.rows := world, rows;
    }

    method SubmitCall(call: Call, submit: Submit) returns (reply: Reply)
      modifies this`world
      ensures world == Submitted(old(world), call, submit) && reply == ReplyTo(old(world), call, submit)
      ensures !Allowed(old(world), submit.ctx, call) ==> world == old(world) && reply == Raises
      ensures Allowed(old(world), submit.ctx, call) ==>
                && reply == submit.reply
                && world == if reply == Raises && !submit.committedAnyway then old(world)
                            else Invoke(old(world), submit.ctx, call)
    {
      if Allowed(world, submit.ctx, call) {
        if submit.reply.Raises? && !submit.committedAnyway { return Raises; }
        world := Invoke(world, submit.ctx, call);
        reply := submit.reply;
      } else {
        reply := Raises;
      }
    }

    method FreezeAsset(id: string, reason: string, reference: string, submit: Submit, faults: Faults)
        returns (raised: bool)
      modifies this
      ensures Result(world, rows, raised) == FreezeSaga(old(world), old(rows), id, reason, reference, submit, faults)
    {
      var reply := SubmitCall(Freeze(id, reason, reference), submit);
      if !reply.Dict? || reply.block.Garbled? { return true; }
      var number := if reply.block.Block? then Some(reply.block.number) else None;
      if faults.readRaises || id !in rows { return true; }
      var saved := rows;
      var row := rows[id];
      row := row.(status := GELE);
      row := row.(fabricTxId := reply.txId, block := number);
      rows := rows[id := row];
      if faults.commitRaises {
        if !faults.commitTook { rows := saved; }
        if faults.rollbackRaises { return true; }
        var undone := SubmitCall(Unfreeze(id, COMPENSATION), faults.undo);
        return true;
      }
      raised := faults.tailRaises || row.currentValue.None?;
    }

    method UnfreezeAsset(id: string, justification: string, submit: Submit, faults: Faults) returns (raised: bool)
      modifies this
      ensures Result(world, rows, raised) == UnfreezeSaga(old(world), old(rows), id, justification, submit, faults)
    {
      var reply := SubmitCall(Unfreeze(id, justification), submit);
      if !reply.Dict? || reply.block.Garbled? { return true; }
      var number := if reply.block.Block? then Some(reply.block.number) else None;
      if faults.readRaises || id !in rows { return true; }
      var saved := rows;
      var row := rows[id];
      row := row.(status := ACTIF);
      row := row.(fabricTxId := reply.txId, block := number);
      rows := rows[id := row];
      if faults.commitRaises {
        if !faults.commitTook { rows := saved; }
        if faults.rollbackRaises { return true; }
        var undone := SubmitCall(Freeze(id, COMPENSATION, COMPENSATION_REF), faults.undo);
        return true;
      }
      raised := faults.tailRaises || row.currentValue.None?;
    }
  }

  ghost predicate Agree(w: World, rows: Rows, id: string) {
    id in w && id in rows && w[id].status == rows[id].status
  }

  /** The call gets as far as the database commit: the reply is a readable dict and the row is read. */
  predicate ReachesCommit(submit: Submit, faults: Faults) {
    submit.reply.Dict? && !submit.reply.block.Garbled? && !faults.readRaises
  }

  /** The row with a new status, the transaction id of the reply, and its block number or none. */
  ghost function ReplyWritten(row: Row, status: string, reply: Reply): Row
    requires reply.Dict?
  {
    Row(status, row.currentValue, row.ownerId, reply.txId,
        match reply.block case Block(number) => Some(number) case _ => None)
  }

  /** The database commit takes effect, whether or not it raises. */
  predicate RowWritten(submit: Submit, faults: Faults) {
    ReachesCommit(submit, faults) && (faults.commitRaises ==> faults.commitTook)
  }

  /** A raising database commit is followed by a compensation that commits on the given ledger. */
  predicate Undone(w: World, id: string, submit: Submit, faults: Faults) {
    && ReachesCommit(submit, faults) && faults.commitRaises && !faults.rollbackRaises
    && Commits(w, Unfreeze(id, COMPENSATION), faults.undo)
  }

  /** What `freeze` does to ledger and rows, and exactly when it raises. */
  lemma FreezeOutcome(w: World, rows: Rows, id: string, reason: string, reference: string,
                      submit: Submit, faults: Faults)
    requires id in rows
    ensures var call := Freeze(id, reason, reference);
            var r := FreezeSaga(w, rows, id, reason, reference, submit, faults);
            var commits := Commits(w, call, submit);
            && (r.world == if !commits then w
                           else if !Undone(Invoke(w, submit.ctx, call), id, submit, faults) then Invoke(w, submit.ctx, call)
                           else Invoke(Invoke(w, submit.ctx, call), faults.undo.ctx,
                                       Unfreeze(id, "SAGA_COMPENSATION: DB commit failure rollback")))
            && (r.rows == if commits && RowWritten(submit, faults)
                          then rows[id := ReplyWritten(rows[id], "GELE", submit.reply)] else rows)
            && (r.raised <==> !(commits && ReachesCommit(submit, faults) && !faults.commitRaises
                                && !faults.tailRaises && rows[id].currentValue.Some?))
  {
  }

  /**
   * Freeze agreement, both ways: starting from equal statuses in a reachable ledger, `freeze` ends with
   * equal statuses exactly when the ledger step did not commit, or the row was written and the ledger step
   * not undone, or the row was not written and the ledger step undone.
   */
  lemma {:induction false} FreezeAgreesIff(txs: seq<Tx>, rows: Rows, id: string, reason: string, reference: string,
                                           submit: Submit, faults: Faults)
    requires Agree(History(txs), rows, id)
    ensures var w, call := History(txs), Freeze(id, reason, reference);
            var r := FreezeSaga(w, rows, id, reason, reference, submit, faults);
            var commits, written := Commits(w, call, submit), RowWritten(submit, faults);
            var undone := Undone(Submitted(w, call, submit), id, submit, faults);
            && (Agree(r.world, r.rows, id) <==> !commits || (written <==> !undone))
            && (commits ==> && r.world[id].status == (if undone then "ACTIF" else "GELE")
                            && r.rows[id].status == (if written then "GELE" else "ACTIF"))
  {
    AssetIsReplayOfTrail(txs, id);
  }

  /** A committed compensation gives every ledger field back; the trail gains exactly GELE then DEGELE. */
  lemma {:induction false} CompensationRestores(txs: seq<Tx>, id: string, reason: string, reference: string,
                                                freeze: Submit, undo: Submit)
    requires id in History(txs)
    requires Commits(History(txs), Freeze(id, reason, reference), freeze)
    requires Commits(Submitted(History(txs), Freeze(id, reason, reference), freeze), Unfreeze(id, COMPENSATION), undo)
    ensures var w := History(txs);
            var w1 := Submitted(w, Freeze(id, reason, reference), freeze);
            var w2 := Submitted(w1, Unfreeze(id, COMPENSATION), undo);
            && w2.Keys == w.Keys && (forall other :: other in w && other != id ==> w2[other] == w[other])
            && |w2[id].provenance| == |w[id].provenance| + 2
            && w2[id].provenance[|w[id].provenance|].action == GELE
            && w2[id].provenance[|w[id].provenance| + 1].action == DEGELE
            && w2[id].provenance[|w[id].provenance| + 1].justification == "SAGA_COMPENSATION: DB commit failure rollback"
            && w[id].provenance <= w2[id].provenance
            && w2[id].(provenance := w[id].provenance) == w[id]
  {
    AssetIsReplayOfTrail(txs, id);
  }

  /** Without a database row `freeze` raises and touches no row; the ledger keeps a freeze that committed. */
  lemma FreezeWithoutRow(w: World, rows: Rows, id: string, reason: string, reference: string,
                         submit: Submit, faults: Faults)
    requires id !in rows
    ensures var call := Freeze(id, reason, reference);
            var r := FreezeSaga(w, rows, id, reason, reference, submit, faults);
            && r.raised && r.rows == rows
            && (Commits(w, call, submit) ==> r.world == Invoke(w, submit.ctx, call) && r.world[id].status == GELE)
            && (!Commits(w, call, submit) ==> r.world == w)
  {
  }

  // ---------------------------------------------------------------- unfreeze

  const COMPENSATION_REF := "SAGA-COMP"

  function UnfreezeSaga(w: World, rows: Rows, id: string, justification: string,
                        submit: Submit, faults: Faults): Result {
    var call := Unfreeze(id, justification);
    var w1 := Submitted(w, call, submit);
    match ReplyTo(w, call, submit)
    case Raises => Result(w1, rows, true)
    case NotDict => Result(w1, rows, true)
    case Dict(txId, block) =>
      if block.Garbled? || faults.readRaises || id !in rows then Result(w1, rows, true)
      else
        var written := rows[id := WrittenRow(rows[id], ACTIF, txId, block)];
        var kept := if faults.commitRaises && !faults.commitTook then rows else written;
        if !faults.commitRaises then Result(w1, kept, ResponseRaises(rows[id], faults))
        else if faults.rollbackRaises then Result(w1, kept, true)
        else Result(Submitted(w1, Freeze(id, COMPENSATION, COMPENSATION_REF), faults.undo), kept, true)
  }

  /** The compensating reference has two parts, not the four the contract asks for. */
  lemma ReferenceMalformed()
    ensures !ValidRegulatoryRef(COMPENSATION_REF)
  {
    FirstPart("SAGA", "COMP");
    OnePart("COMP");
    assert COMPENSATION_REF == "SAGA" + "-" + "COMP";
  }

  lemma CompensationRefused(w: World, ctx: Ctx, id: string)
    ensures !Allowed(w, ctx, Freeze(id, COMPENSATION, COMPENSATION_REF))
  {
    ReferenceMalformed();
  }

  /** What `unfreeze_asset` does to ledger and rows, and exactly when it raises: its compensation never takes. */
  lemma UnfreezeOutcome(w: World, rows: Rows, id: string, justification: string, submit: Submit, faults: Faults)
    requires id in rows
    ensures var call := Unfreeze(id, justification);
            var r := UnfreezeSaga(w, rows, id, justification, submit, faults);
            var commits := Commits(w, call, submit);
            && (r.world == if commits then Invoke(w, submit.ctx, call) else w)
            && (r.rows == if commits && RowWritten(submit, faults)
                          then rows[id := ReplyWritten(rows[id], "ACTIF", submit.reply)] else rows)
            && (r.raised <==> !(commits && ReachesCommit(submit, faults) && !faults.commitRaises
                                && !faults.tailRaises && rows[id].currentValue.Some?))
  {
    CompensationRefused(Submitted(w, Unfreeze(id, justification), submit), faults.undo.ctx, id);
  }

  /**
   * Unfreeze agreement, both ways: from equal statuses in a reachable ledger `unfreeze_asset` ends with
   * equal statuses exactly when the ledger step did not commit or the row was written. Every other
   * committed unfreeze leaves the ledger ACTIF and the row GELE, whatever the compensating submission
   * answers.
   */
  lemma {:induction false} UnfreezeAgreesIff(txs: seq<Tx>, rows: Rows, id: string, justification: string,
                                             submit: Submit, faults: Faults)
    requires Agree(History(txs), rows, id)
    ensures var w := History(txs);
            var r := UnfreezeSaga(w, rows, id, justification, submit, faults);
            var commits, written := Commits(w, Unfreeze(id, justification), submit), RowWritten(submit, faults);
            && (Agree(r.world, r.rows, id) <==> !commits || written)
            && (commits ==> r.world[id].status == "ACTIF" && r.rows[id].status == (if written then "ACTIF" else "GELE"))
  {
    UnfreezeOutcome(History(txs), rows, id, justification, submit, faults);
  }

  // ---------------------------------------------------------------- runs that end apart

  const SAMPLE_ID := "RWA" + "-" + (UPPER[..2] + "-" + (UPPER[..2] + "-" + (DIGITS + "-" + DIGITS[..3])))
  const SAMPLE_REF := UPPER[..2] + "-" + (UPPER[..2] + "-" + (DIGITS + "-" + DIGITS))
  const UPPER: string := seq(20, _ => 'A')
  const DIGITS: string := seq(4, _ => '0')

  function Signed(msp: string): Ctx { Ctx(Some(msp), Some("cn"), Some(Instant(0, "1970-01-01T00:00:00Z")), "tx", false) }

  const ISSUE := Tx(Signed("BANK01MSP"),
                    Tokenize(SAMPLE_ID, UPPER[..12], "", "", UPPER, 1.0, "EUR", "", ""))

  /** A reachable ledger with an active asset that the regulator may freeze. */
  lemma ActiveReachable()
    ensures SAMPLE_ID in History([ISSUE]) && History([ISSUE])[SAMPLE_ID].status == ACTIF
    ensures ValidRegulatoryRef(SAMPLE_REF)
  {
    AssetIdFormed(SAMPLE_ID, UPPER[..2], UPPER[..2], DIGITS, DIGITS[..3]);
    ReferenceFormed(SAMPLE_REF, UPPER[..2], UPPER[..2], DIGITS, DIGITS);
    assert [ISSUE][..0] == [];
    assert History([]) == map[];
    assert EqualFold("BANK01MSP", AuthorisedMSPs("TokenizeAsset")[0]);
    assert Allowed(map[], ISSUE.ctx, ISSUE.call);
  }

  const REGULATOR := Signed("REG01MSP")
  const ANSWERED := Submit(REGULATOR, Dict("", NoBlock), false)

  /** The database commit raises, after taking effect or without; everything else goes well. */
  function CommitRaising(took: bool): Faults { Faults(false, true, took, false, false, ANSWERED) }

  /**
   * Divergence is reachable although nothing but the database commit goes wrong. Freezing a newly issued
   * asset: when the raising commit had taken effect, the compensation leaves the ledger ACTIF and the row
   * GELE.
   */
  lemma FreezeEndsApart(row: Row)
    requires row.status == ACTIF
    ensures var w, rows := History([ISSUE]), map[SAMPLE_ID := row];
            var r := FreezeSaga(w, rows, SAMPLE_ID, "", SAMPLE_REF, ANSWERED, CommitRaising(true));
            && Agree(w, rows, SAMPLE_ID)
            && SAMPLE_ID in r.world && SAMPLE_ID in r.rows
            && r.world[SAMPLE_ID].status == ACTIF && r.rows[SAMPLE_ID].status == GELE
  {
    ActiveReachable();
    RegulatorMay();
    FreezeAgreesIff([ISSUE], map[SAMPLE_ID := row], SAMPLE_ID, "", SAMPLE_REF, ANSWERED, CommitRaising(true));
  }

  lemma RegulatorMay()
    ensures Identified(REGULATOR, "FreezeAsset") && Identified(REGULATOR, "UnfreezeAsset")
  {
    assert EqualFold("REG01MSP", AuthorisedMSPs("FreezeAsset")[0]);
    assert EqualFold("REG01MSP", AuthorisedMSPs("UnfreezeAsset")[0]);
  }

  const SEIZE := Tx(REGULATOR, Freeze(SAMPLE_ID, "", SAMPLE_REF))

  /** Unfreezing it again: when the raising commit had not taken effect, the ledger stays ACTIF and the row GELE. */
  lemma UnfreezeEndsApart(row: Row)
    requires row.status == GELE
    ensures var w, rows := History([ISSUE, SEIZE]), map[SAMPLE_ID := row];
            var r := UnfreezeSaga(w, rows, SAMPLE_ID, "", ANSWERED, CommitRaising(false));
            && Agree(w, rows, SAMPLE_ID)
            && SAMPLE_ID in r.world && SAMPLE_ID in r.rows
            && r.world[SAMPLE_ID].status == ACTIF && r.rows[SAMPLE_ID].status == GELE
  {
    ActiveReachable();
    RegulatorMay();
    assert [ISSUE, SEIZE][..1] == [ISSUE];
    assert Allowed(History([ISSUE]), SEIZE.ctx, SEIZE.call);
    UnfreezeAgreesIff([ISSUE, SEIZE], map[SAMPLE_ID := row], SAMPLE_ID, "", ANSWERED, CommitRaising(false));
  }
}
