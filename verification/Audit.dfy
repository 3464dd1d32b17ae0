/** The integrity checker that reads provenance trails. */
module Audit {
  import opened Bytes
  import opened Ledger
  import opened LedgerTheorems

  datatype RecordIntegrity = RecordIntegrity(
    index: nat, txId: string, hash: string, valid: bool, tamperedFields: seq<string>)

  datatype Report = Report(assetId: string, total: nat, valid: bool, tamperedCount: nat, records: seq<RecordIntegrity>)

  predicate Known(action: string) { action in [TOKENISE, TRANSFERE, GELE, DEGELE] }

  /** The tests on one record, given whether a TOKENISE has been seen up to and including it. */
  function Flags(action: string, first: bool, seenTokenise: bool): seq<string> {
    (if first && action != TOKENISE then ["action (TOKENISE missing)"] else [])
    + (if action == GELE && !seenTokenise then ["action (GELE before TOKENISE)"] else [])
    + (if !Known(action) then ["action (" + action + " unknown)"] else [])
  }

  /** What the checker holds against record i of a trail. */
  function Problems(trail: seq<Record>, i: int): seq<string>
    requires 0 <= i < |trail|
  {
    Flags(trail[i].action, i == 0, exists j :: 0 <= j <= i && trail[j].action == TOKENISE)
  }

  /** A record's entry: its place, its id, its digest, and what is held against it. */
  function Judged(digest: Record -> string, trail: seq<Record>, i: int): (entry: RecordIntegrity)
    requires 0 <= i < |trail|
    ensures entry.index == i && entry.txId == trail[i].txId && entry.hash == digest(trail[i])
    ensures entry.tamperedFields == Problems(trail, i) && (entry.valid <==> |entry.tamperedFields| == 0)
  {
    RecordIntegrity(i, trail[i].txId, digest(trail[i]), Problems(trail, i) == [], Problems(trail, i))
  }

  /** The trails the checker calls valid. */
  predicate Acceptable(trail: seq<Record>) {
    trail == [] || (trail[0].action == TOKENISE && forall i :: 0 <= i < |trail| ==> Known(trail[i].action))
  }

  predicate Clean(trail: seq<Record>, i: int)
    requires 0 <= i < |trail|
  {
    Problems(trail, i) == []
  }

  /** How many of the first n records have a problem. */
  function Tampered(trail: seq<Record>, n: nat): nat
    requires n <= |trail|
  {
    if n == 0 then 0 else Tampered(trail, n - 1) + if Clean(trail, n - 1) then 0 else 1
  }

  /** What is held against a record, flag by flag. */
  lemma ProblemsExactly(trail: seq<Record>, i: nat)
    requires i < |trail|
    ensures var action, flags := trail[i].action, Problems(trail, i);
            && ("action (TOKENISE missing)" in flags <==> i == 0 && action != "TOKENISE")
            && ("action (GELE before TOKENISE)" in flags
                <==> action == "GELE" && forall j :: 0 <= j <= i ==> trail[j].action != "TOKENISE")
            && (flags == [] <==> (i == 0 ==> action == "TOKENISE")
                                 && action in {"TOKENISE", "TRANSFERE", "GELE", "DEGELE"}
                                 && (action == "GELE" ==> exists j :: 0 <= j < i && trail[j].action == "TOKENISE"))
            && (action !in {"TOKENISE", "TRANSFERE", "GELE", "DEGELE"} ==>
                  flags[|flags| - 1] == "action (" + action + " unknown)")
            && |flags| <= 2
  {
    var action := trail[i].action;
    var unknown := "action (" + action + " unknown)";
    assert |"action (TOKENISE missing)"| == 25;
    assert |"action (GELE before TOKENISE)"| == 29;
    assert unknown[|unknown| - 8..] == " unknown)"[1..];
  }

  method Check(digest: Record -> string, assetId: string, trail: seq<Record>) returns (report: Report)
    ensures report.assetId == assetId && report.total == |report.records| == |trail|
    ensures forall i :: 0 <= i < |trail| ==> report.records[i] == Judged(digest, trail, i)
    ensures report.tamperedCount == Tampered(trail, |trail|)
    ensures report.valid <==> Acceptable(trail)
  {
    var records: seq<RecordIntegrity> := [];
    var globalValid, tamperedCount, seenTokenise := true, 0, false;
    var idx := 0;
    while idx < |trail|
      invariant 0 <= idx <= |trail| && |records| == idx
      invariant seenTokenise <==> exists j :: 0 <= j < idx && trail[j].action == TOKENISE
      invariant forall i :: 0 <= i < idx ==> records[i] == Judged(digest, trail, i)
      invariant tamperedCount == Tampered(trail, idx)
      invariant globalValid <==> tamperedCount == 0
    {
      var rec := trail[idx];
      if rec.action == TOKENISE {
        seenTokenise := true;
      }
      var tampered := Flags(rec.action, idx == 0, seenTokenise);
      assert tampered == Problems(trail, idx);
      var isValid := |tampered| == 0;
      if !isValid {
        globalValid := false;
        tamperedCount := tamperedCount + 1;
      }
      records := records + [RecordIntegrity(idx, rec.txId, digest(rec), isValid, tampered)];
      idx := idx + 1;
    }
    ValidExactly(trail);
    report := Report(assetId, |trail|, globalValid, tamperedCount, records);
  }

  lemma {:induction false} NoneTampered(trail: seq<Record>, n: nat)
    requires n <= |trail|
    ensures Tampered(trail, n) == 0 <==> forall i :: 0 <= i < n ==> Clean(trail, i)
  {
    if n > 0 { NoneTampered(trail, n - 1); }
  }

  /** The records with a problem, among the first n. */
  function Flagged(trail: seq<Record>, n: nat): set<int>
    requires n <= |trail|
  {
    set i | 0 <= i < n && !Clean(trail, i)
  }

  lemma FlaggedNext(trail: seq<Record>, n: nat)
    requires n < |trail|
    ensures |Flagged(trail, n + 1)| == |Flagged(trail, n)| + if Clean(trail, n) then 0 else 1
  {
    if Clean(trail, n) {
      assert Flagged(trail, n + 1) == Flagged(trail, n);
    } else {
      assert Flagged(trail, n + 1) == Flagged(trail, n) + {n};
      SetGrows(Flagged(trail, n), n);
    }
  }

  /** The count of the report is their number. */
  lemma {:induction false} TamperedIsSize(trail: seq<Record>, n: nat)
    requires n <= |trail|
    ensures Tampered(trail, n) == |Flagged(trail, n)|
    decreases n
  {
    if n > 0 {
      TamperedIsSize(trail, n - 1);
      FlaggedNext(trail, n - 1);
    }
  }

  /** No record has a problem exactly when the trail starts with TOKENISE and knows every action. */
  lemma ValidExactly(trail: seq<Record>)
    ensures Tampered(trail, |trail|) == 0 <==> Acceptable(trail)
  {
    NoneTampered(trail, |trail|);
    if trail != [] {
      forall i | 0 <= i < |trail|
        ensures Clean(trail, i) ==> Known(trail[i].action) && (i == 0 ==> trail[i].action == TOKENISE)
        ensures trail[0].action == TOKENISE && Known(trail[i].action) ==> Clean(trail, i)
      {
      }
    }
  }

  /** The checker accepts every trail the contract can produce. */
  lemma ReachableTrailsAcceptable(txs: seq<Tx>, id: string)
    requires id in History(txs)
    ensures Acceptable(History(txs)[id].provenance)
  {
    ReachableTrailsDisciplined(txs, id);
  }

  // ---------------------------------------------------------------- what the checker does not see

  /** Some GELE of the trail has not been lifted. */
  ghost predicate Frozen(trail: seq<Record>) { exists i :: FrozenBy(trail, i, |trail|) }

  /** The contract's guards on a further record: no second issue, the role, and a release exactly of a frozen asset. */
  ghost predicate Guarded(trail: seq<Record>, r: Record) {
    r.action != TOKENISE && RoleFor(r.action, r.actorMSP) && (r.action == DEGELE <==> Frozen(trail))
  }

  lemma PrefixSeesTheSame(trail: seq<Record>, r: Record, i: int, j: int)
    requires j <= |trail|
    ensures ReleasedBetween(trail + [r], i, j) <==> ReleasedBetween(trail, i, j)
    ensures FrozenBy(trail + [r], i, j) <==> FrozenBy(trail, i, j)
  {
    var all := trail + [r];
    assert forall k :: 0 <= k < |trail| ==> all[k] == trail[k];
    if ReleasedBetween(all, i, j) {
      var k :| 0 <= i < k < j && all[k].action == DEGELE;
      assert trail[k].action == DEGELE;
    }
    if ReleasedBetween(trail, i, j) {
      var k :| 0 <= i < k < j && trail[k].action == DEGELE;
      assert all[k].action == DEGELE;
    }
  }

  lemma DisciplinedInit(trail: seq<Record>, r: Record)
    requires Disciplined(trail + [r])
    ensures Disciplined(trail)
  {
    var all := trail + [r];
    forall k | 0 <= k < |trail| ensures all[k] == trail[k] {}
    forall j | 0 <= j < |trail| && trail[j].action == DEGELE ensures exists i :: FrozenBy(trail, i, j) {
      assert all[j].action == DEGELE;
      var i :| FrozenBy(all, i, j);
      PrefixSeesTheSame(trail, r, i, j);
    }
    forall i, j | 0 <= i < j < |trail| && trail[i].action == GELE && trail[j].action in {GELE, TRANSFERE}
      ensures ReleasedBetween(trail, i, j)
    {
      assert all[i].action == GELE && all[j].action in {GELE, TRANSFERE};
      PrefixSeesTheSame(trail, r, i, j);
    }
  }

  lemma DisciplinedLast(trail: seq<Record>, r: Record)
    requires Disciplined(trail + [r]) && trail != []
    ensures Known(r.action) && Guarded(trail, r)
  {
    var all, n := trail + [r], |trail|;
    assert all[n] == r;
    if r.action == DEGELE {
      var i :| FrozenBy(all, i, n);
      PrefixSeesTheSame(trail, r, i, n);
    }
    if Frozen(trail) {
      var i :| FrozenBy(trail, i, n);
      PrefixSeesTheSame(trail, r, i, n);
      assert all[i].action == GELE;
    }
  }

  lemma DisciplinedAppend(trail: seq<Record>, r: Record)
    requires Disciplined(trail) && trail != [] && Known(r.action) && Guarded(trail, r)
    ensures Disciplined(trail + [r])
  {
    var all, n := trail + [r], |trail|;
    assert all[n] == r;
    forall k | 0 <= k < n ensures all[k] == trail[k] {}
    forall j | 0 <= j <= n && all[j].action == DEGELE ensures exists i :: FrozenBy(all, i, j) {
      assert j < n ==> trail[j].action == DEGELE;
      var i :| FrozenBy(trail, i, j);
      PrefixSeesTheSame(trail, r, i, j);
    }
    forall i, j | 0 <= i < j <= n && all[i].action == GELE && all[j].action in {GELE, TRANSFERE}
      ensures ReleasedBetween(all, i, j)
    {
      PrefixSeesTheSame(trail, r, i, j);
      assert trail[i].action == GELE;
      if j == n { assert !FrozenBy(trail, i, n); } else { assert trail[j].action in {GELE, TRANSFERE}; }
    }
  }

  /**
   * One more record, both views: the checker asks only that the action is known; the discipline also asks
   * for the contract's guards. So the checker errs on exactly the records the guards refuse.
   */
  lemma CheckerIgnoresDiscipline(trail: seq<Record>, r: Record)
    requires trail != []
    ensures Acceptable(trail + [r]) <==> Acceptable(trail) && Known(r.action)
    ensures Disciplined(trail + [r]) <==> Disciplined(trail) && Known(r.action) && Guarded(trail, r)
  {
    var all := trail + [r];
    assert all[|trail|] == r && forall k :: 0 <= k < |trail| ==> all[k] == trail[k];
    if Disciplined(all) {
      DisciplinedInit(trail, r);
      DisciplinedLast(trail, r);
    }
    if Disciplined(trail) && Known(r.action) && Guarded(trail, r) { DisciplinedAppend(trail, r); }
  }

  /** Every record passed the contract's guards after its predecessors, the first one the role test. */
  ghost predicate AllGuarded(trail: seq<Record>) {
    && (trail != [] ==> RoleFor(trail[0].action, trail[0].actorMSP))
    && forall k :: 0 < k < |trail| ==> Guarded(trail[..k], trail[k])
  }

  /**
   * What the verdict lacks, on every trail: a trail is disciplined exactly when the checker accepts it and
   * every record passed the guards. So a rejection is always right, and an acceptance is right exactly
   * when no guard was bypassed.
   */
  lemma {:induction false} DisciplinedExactly(trail: seq<Record>)
    ensures Disciplined(trail) <==> Acceptable(trail) && AllGuarded(trail)
  {
    if |trail| > 1 {
      var n := |trail| - 1;
      var init, r := trail[..n], trail[n];
      assert init + [r] == trail;
      DisciplinedExactly(init);
      CheckerIgnoresDiscipline(init, r);
      assert forall k :: 0 < k < n ==> trail[..k] == init[..k] && trail[k] == init[k];
      assert AllGuarded(trail) <==> AllGuarded(init) && Guarded(init, r);
    }
  }
}
