/** The background job that brings database rows back in step with the ledger. */
module Reconciliation {
  import opened Bytes
  import opened Ledger
  import opened LedgerTheorems
  import opened Saga

  /** A ledger asset as the client hands it to the job; the keys the job reads, where present. */
  datatype State = NoState | State(nominal: Option<real>, current: Option<real>, status: Option<string>,
                                   ownerId: Option<string>)

  /** Rounding to four decimals, half away from zero, as the column stores a value. */
  function Stored(v: real): real {
    if v >= 0.0 then (v * 10000.0 + 0.5).Floor as real / 10000.0
    else -((-v * 10000.0 + 0.5).Floor as real / 10000.0)
  }

  /** The stored value is a whole number of ten-thousandths, the nearest one, and the larger one on a tie. */
  lemma StoredIsClose(v: real)
    ensures (Stored(v) * 10000.0).Floor as real == Stored(v) * 10000.0
    ensures v >= 0.0 ==> -0.00005 < Stored(v) - v <= 0.00005
    ensures v < 0.0 ==> -0.00005 <= Stored(v) - v < 0.00005
  {
    var x := if v >= 0.0 then v * 10000.0 + 0.5 else -v * 10000.0 + 0.5;
    assert x.Floor as real <= x < x.Floor as real + 1.0;
    assert Stored(v) * 10000.0 == (if v >= 0.0 then x.Floor else -x.Floor) as real;
  }

  function LedgerValue(s: State): Option<real>
    requires s.State?
  {
    if s.current.Some? then s.current else s.nominal
  }

  predicate Far(a: real, b: real) { a - b > 0.001 || b - a > 0.001 }

  /** Comparing a NULL value with the ledger's raises, before anything is written. */
  predicate SyncRaises(row: Row, s: State)
    requires s.State?
  {
    LedgerValue(s).Some? && row.currentValue.None?
  }

  /** The reconciled row and the columns reported as changed. */
  function SyncRow(row: Row, s: State): (Row, seq<string>)
    requires s.State? && !SyncRaises(row, s)
  {
    var value := LedgerValue(s);
    var newValue := value.Some? && Far(row.currentValue.value, value.value);
    var newStatus := s.status.Some? && s.status.value != "" && row.status != s.status.value;
    var newOwner := s.ownerId.Some? && s.ownerId.value != "" && row.ownerId != s.ownerId.value;
    (row.(currentValue := if newValue then Some(Stored(value.value)) else row.currentValue,
          status := if newStatus then s.status.value else row.status,
          ownerId := if newOwner then s.ownerId.value else row.ownerId),
     (if newValue then ["current_value"] else []) + (if newStatus then ["status"] else [])
     + (if newOwner then ["current_owner_id"] else []))
  }

  datatype SyncOutcome = SyncRaised | Unsynced(reason: seq<string>) | Synced(changes: seq<string>)

  /** What raises in a run: the ledger query, the select, the write -- which may have taken effect -- or the audit log. */
  datatype SyncFaults = SyncFaults(
    ledgerRaises: bool, selectRaises: bool, writeRaises: bool, writeTook: bool, logRaises: bool)

  const NO_FAULTS := SyncFaults(false, false, false, false, false)

  /** One run of the job: the rows it leaves and how it ends. */
  function SyncRun(rows: Rows, id: string, s: State, faults: SyncFaults): (Rows, SyncOutcome) {
    if faults.ledgerRaises then (rows, SyncRaised)
    else if s.NoState? then (rows, Unsynced([]))
    else if faults.selectRaises then (rows, SyncRaised)
    else if id !in rows then (rows, Unsynced(["Not found in DB"]))
    else if SyncRaises(rows[id], s) then (rows, SyncRaised)
    else
      var (row, changes) := SyncRow(rows[id], s);
      if changes != [] && faults.writeRaises then (if faults.writeTook then rows[id := row] else rows, SyncRaised)
      else (rows[id := row], if faults.logRaises then SyncRaised else Synced(changes))
  }

  method SyncFabricState(rows: Rows, id: string, s: State, faults: SyncFaults)
      returns (after: Rows, outcome: SyncOutcome)
    ensures (after, outcome) == SyncRun(rows, id, s, faults)
    ensures outcome == Unsynced([]) <==> !faults.ledgerRaises && s.NoState?
    ensures outcome == Unsynced(["Not found in DB"])
       <==> !faults.ledgerRaises && !faults.selectRaises && s.State? && id !in rows
    ensures outcome.Unsynced? ==> after == rows && |outcome.reason| <= 1
    ensures outcome.Synced? ==> s.State? && id in rows && outcome.changes == SyncRow(rows[id], s).1
  {
    after := rows;
    if faults.ledgerRaises { return rows, SyncRaised; }
    if s.NoState? { return rows, Unsynced([]); }
    if faults.selectRaises { return rows, SyncRaised; }
    if id !in rows { return rows, Unsynced(["Not found in DB"]); }
    var row := rows[id];
    var value := s.nominal;
    if s.current.Some? { value := s.current; }
    var updated := row;
    var changes: seq<string> := [];
    if value.Some? {
      if row.currentValue.None? { return rows, SyncRaised; }
      var stored := row.currentValue.value;
      if stored - value.value > 0.001 || value.value - stored > 0.001 {
        updated := updated.(currentValue := Some(Stored(value.value)));
        changes := changes + ["current_value"];
      }
    }
    if s.status.Some? && s.status.value != "" && row.status != s.status.value {
      updated := updated.(status := s.status.value);
      changes := changes + ["status"];
    }
    if s.ownerId.Some? && s.ownerId.value != "" && row.ownerId != s.ownerId.value {
      updated := updated.(ownerId := s.ownerId.value);
      changes := changes + ["current_owner_id"];
    }
    assert updated == SyncRow(row, s).0 && changes == SyncRow(row, s).1;
    assert changes == [] ==> rows[id := updated] == rows;
    if changes != [] {
      if faults.writeRaises { return if faults.writeTook then rows[id := updated] else rows, SyncRaised; }
      after := rows[id := updated];
    }
    outcome := if faults.logRaises then SyncRaised else Synced(changes);
  }

  /** What the query of a ledger asset answers: every key but the owner id the job asks for. */
  function LedgerReply(a: Asset): State {
    State(Some(a.nominalValue), Some(a.currentValue), Some(a.status), None)
  }

  /** A run on the row would neither raise nor change anything. */
  ghost predicate Settled(row: Row, s: State)
    requires s.State?
  {
    !SyncRaises(row, s) && SyncRow(row, s) == (row, [])
  }

  /** The ledger's value for the comparison: the current one, else the nominal one. */
  ghost predicate HasValue(s: State, v: real)
    requires s.State?
  {
    s.current == Some(v) || (s.current.None? && s.nominal == Some(v))
  }

  /**
   * One reconciled row has the ledger's status and owner where the reply gives them, and the ledger's value
   * within 0.001: the row's own value if it was that close, the stored form of the ledger's otherwise.
   * Nothing else changes, exactly the changed columns are reported, and the row is then settled.
   */
  lemma SyncSettles(row: Row, s: State)
    requires s.State? && !SyncRaises(row, s)
    ensures var (r, changes) := SyncRow(row, s);
            && r.status == (match s.status case Some(v) => if v != "" then v else row.status case None => row.status)
            && r.ownerId == (match s.ownerId case Some(v) => if v != "" then v else row.ownerId case None => row.ownerId)
            && r.fabricTxId == row.fabricTxId && r.block == row.block
            && (s.current.None? && s.nominal.None? ==> r.currentValue == row.currentValue)
            && (forall v :: HasValue(s, v) ==>
                  && row.currentValue.Some?
                  && var old_ := row.currentValue.value;
                     r.currentValue == Some(if -0.001 <= old_ - v <= 0.001 then old_ else Stored(v)))
            && ("status" in changes <==> r.status != row.status)
            && ("current_owner_id" in changes <==> r.ownerId != row.ownerId)
            && ("current_value" in changes
                <==> exists v :: HasValue(s, v) && !(-0.001 <= row.currentValue.value - v <= 0.001))
            && Settled(r, s)
  {
    if LedgerValue(s).Some? {
      StoredIsClose(LedgerValue(s).value);
      assert HasValue(s, LedgerValue(s).value);
    }
    var none: seq<string> := [];
    assert none + none + none == none;
  }

  /** The run gets to read both sides, and what it writes is kept. */
  predicate WriteTakes(faults: SyncFaults) {
    !faults.ledgerRaises && !faults.selectRaises && (faults.writeRaises ==> faults.writeTook)
  }

  /**
   * Repair, both ways: a run on an existing row leaves it settled exactly when it was settled before, or
   * its value is not NULL where the ledger has one and the write takes; it touches no other row, and it
   * raises exactly when one of its parts does, a write being tried only on an unsettled row.
   */
  lemma SyncRepairsIff(rows: Rows, id: string, s: State, faults: SyncFaults)
    requires s.State? && id in rows
    ensures var (after, outcome) := SyncRun(rows, id, s, faults);
            && after.Keys == rows.Keys && (forall other :: other in rows && other != id ==> after[other] == rows[other])
            && (Settled(after[id], s) <==> Settled(rows[id], s) || (!SyncRaises(rows[id], s) && WriteTakes(faults)))
            && (outcome == SyncRaised
                <==> || faults.ledgerRaises || faults.selectRaises || SyncRaises(rows[id], s)
                     || (!Settled(rows[id], s) && faults.writeRaises) || faults.logRaises)
            && (outcome.Synced? ==> Settled(after[id], s) && (outcome.changes == [] <==> Settled(rows[id], s)))
  {
    if !SyncRaises(rows[id], s) {
      SyncSettles(rows[id], s);
      ChangesExactly(rows[id], s);
    }
  }

  /** No column is reported exactly when the row stays as it is. */
  lemma ChangesExactly(row: Row, s: State)
    requires s.State? && !SyncRaises(row, s)
    ensures SyncRow(row, s).1 == [] <==> Settled(row, s)
  {
    var (r, changes) := SyncRow(row, s);
    if changes == [] { assert r == row; }
  }

  /** Status and value of ledger and row agree, the value within 0.001. */
  ghost predicate InStep(w: World, rows: Rows, id: string) {
    && Agree(w, rows, id)
    && rows[id].currentValue.Some? && -0.001 <= rows[id].currentValue.value - w[id].currentValue <= 0.001
  }

  lemma SettledIsInStep(w: World, rows: Rows, id: string)
    requires id in w && id in rows && w[id].status != ""
    ensures Settled(rows[id], LedgerReply(w[id])) <==> InStep(w, rows, id)
  {
    var row, s := rows[id], LedgerReply(w[id]);
    if !SyncRaises(row, s) { ChangesExactly(row, s); }
  }

  /** What one run does to an asset that ledger and rows know, and what the next run without faults then reports. */
  ghost predicate RunRepairs(r: Result, id: string, faults: SyncFaults) {
    && id in r.world && id in r.rows
    && var s := LedgerReply(r.world[id]);
    && var (after, outcome) := SyncRun(r.rows, id, s, faults);
    && (InStep(r.world, after, id)
        <==> InStep(r.world, r.rows, id) || (r.rows[id].currentValue.Some? && WriteTakes(faults)))
    && (InStep(r.world, after, id) ==> SyncRun(after, id, s, NO_FAULTS) == (after, Synced([])))
  }

  lemma SyncRepairs(r: Result, id: string, faults: SyncFaults)
    requires id in r.world && id in r.rows && r.world[id].status in {ACTIF, GELE}
    ensures RunRepairs(r, id, faults)
  {
    var s := LedgerReply(r.world[id]);
    var after := SyncRun(r.rows, id, s, faults).0;
    SyncRepairsIff(r.rows, id, s, faults);
    SettledIsInStep(r.world, r.rows, id);
    SettledIsInStep(r.world, after, id);
    assert after[id := after[id]] == after;
  }

  /** Whatever `freeze` left behind, a run repairs it exactly when its write takes and no value is NULL. */
  lemma SyncRepairsFreeze(txs: seq<Tx>, rows: Rows, id: string, reason: string, reference: string,
                          submit: Submit, faults: Faults, sync: SyncFaults)
    requires id in History(txs) && id in rows
    ensures var r := FreezeSaga(History(txs), rows, id, reason, reference, submit, faults);
            RunRepairs(r, id, sync) && r.rows[id].currentValue == rows[id].currentValue
  {
    FreezeKeepsAsset(txs, rows, id, reason, reference, submit, faults);
    SyncRepairs(FreezeSaga(History(txs), rows, id, reason, reference, submit, faults), id, sync);
  }

  lemma FreezeKeepsAsset(txs: seq<Tx>, rows: Rows, id: string, reason: string, reference: string,
                         submit: Submit, faults: Faults)
    requires id in History(txs) && id in rows
    ensures var r := FreezeSaga(History(txs), rows, id, reason, reference, submit, faults);
            && id in r.world && id in r.rows && r.world[id].status in {ACTIF, GELE}
            && r.rows[id].currentValue == rows[id].currentValue
  {
    AssetIsReplayOfTrail(txs, id);
  }

  /** The same for `unfreeze_asset`, whose own compensation never repairs anything. */
  lemma SyncRepairsUnfreeze(txs: seq<Tx>, rows: Rows, id: string, justification: string,
                            submit: Submit, faults: Faults, sync: SyncFaults)
    requires id in History(txs) && id in rows
    ensures var r := UnfreezeSaga(History(txs), rows, id, justification, submit, faults);
            RunRepairs(r, id, sync) && r.rows[id].currentValue == rows[id].currentValue
  {
    UnfreezeKeepsAsset(txs, rows, id, justification, submit, faults);
    SyncRepairs(UnfreezeSaga(History(txs), rows, id, justification, submit, faults), id, sync);
  }

  lemma UnfreezeKeepsAsset(txs: seq<Tx>, rows: Rows, id: string, justification: string,
                           submit: Submit, faults: Faults)
    requires id in History(txs) && id in rows
    ensures var r := UnfreezeSaga(History(txs), rows, id, justification, submit, faults);
            && id in r.world && id in r.rows && r.world[id].status in {ACTIF, GELE}
            && r.rows[id].currentValue == rows[id].currentValue
  {
    AssetIsReplayOfTrail(txs, id);
  }

  const SYNC_BATCH_SIZE := 500

  /** Paging over the asset ids: every one is launched exactly once, in order. */
  method SyncAll(ids: seq<string>) returns (launched: seq<string>, count: nat)
    ensures launched == ids && count == |ids|
  {
    launched, count := [], 0;
    var offset := 0;
    while true
      invariant 0 <= offset && launched == ids[..if offset < |ids| then offset else |ids|]
      invariant count == |launched|
      decreases |ids| - offset
    {
      var lo := if offset < |ids| then offset else |ids|;
      var hi := if offset + SYNC_BATCH_SIZE < |ids| then offset + SYNC_BATCH_SIZE else |ids|;
      var batch := ids[lo..hi];
      if batch == [] { break; }
      var k := 0;
      while k < |batch|
        invariant 0 <= k <= |batch| && launched == ids[..lo + k]
      {
        launched := launched + [batch[k]];
        k := k + 1;
      }
      count := count + |batch|;
      offset := offset + SYNC_BATCH_SIZE;
      if |batch| < SYNC_BATCH_SIZE { break; }
    }
  }
}
