/** What every reachable ledger satisfies: assets replay their trails, and trails keep the freeze discipline. */
module LedgerTheorems {
  import opened Bytes
  import opened Ledger

  datatype Tx = Tx(ctx: Ctx, call: Call)

  /** The ledger after a list of invocations, failed ones included. */
  function History(txs: seq<Tx>): World {
    if txs == [] then map[]
    else Invoke(History(txs[..|txs| - 1]), txs[|txs| - 1].ctx, txs[|txs| - 1].call)
  }

  // ---------------------------------------------------------------- replay

  /** The part of an asset its trail determines. */
  datatype Standing = Standing(
    owner: string, value: real, status: string, transfers: nat,
    frozenBy: string, frozenAt: string, frozenReason: string)

  function StandingOf(a: Asset): Standing {
    Standing(a.currentOwner, a.currentValue, a.status, a.totalTransfers, a.frozenBy, a.frozenAt, a.frozenReason)
  }

  /** Reading a trail from its first record on. */
  function Replay(trail: seq<Record>): Standing {
    if trail == [] then Standing("", 0.0, "", 0, "", "", "")
    else
      var s, r := Replay(trail[..|trail| - 1]), trail[|trail| - 1];
      if r.action == TOKENISE then Standing(r.toOwner, r.amount, ACTIF, 0, "", "", "")
      else if r.action == TRANSFERE then s.(owner := r.toOwner, value := r.amount, transfers := s.transfers + 1)
      else if r.action == GELE then
        s.(status := GELE, frozenBy := r.actorDN, frozenAt := r.timestamp.rfc3339, frozenReason := r.justification)
      else if r.action == DEGELE then s.(status := ACTIF, frozenBy := "", frozenAt := "", frozenReason := "")
      else s
  }

  predicate RoleFor(action: string, msp: string) {
    if action == TOKENISE || action == TRANSFERE then EqualFold(msp, "BANK01MSP") else EqualFold(msp, "REG01MSP")
  }

  /** Record k is one the contract could append to the records before it. */
  predicate FollowsRules(trail: seq<Record>, k: int)
    requires 0 <= k < |trail|
  {
    var before, r := Replay(trail[..k]), trail[k];
    && RoleFor(r.action, r.actorMSP) && r.actorDN != ""
    && if k == 0 then r.action == TOKENISE && r.toOwner == r.actorDN && r.amount > 0.0
       else
         || (r.action == TRANSFERE && before.status == ACTIF && r.fromOwner == before.owner && r.amount > 0.0)
         || (r.action == GELE && before.status == ACTIF)
         || (r.action == DEGELE && before.status == GELE)
  }

  ghost predicate Lawful(trail: seq<Record>) {
    trail != [] && forall k :: 0 <= k < |trail| ==> FollowsRules(trail, k)
  }

  /** What every asset of a reachable ledger satisfies. */
  ghost predicate Consistent(id: string, a: Asset) {
    && a.assetId == id && ValidAssetId(id)
    && Lawful(a.provenance) && StandingOf(a) == Replay(a.provenance)
    && ValidIsin(a.isin) && ValidLei(a.issuerLEI) && ValidCurrency(a.currency)
    && a.nominalValue == a.provenance[0].amount && a.issuerMSP == a.provenance[0].actorMSP && a.currentValue > 0.0
    && (a.status == ACTIF || a.status == GELE)
    && (a.status == GELE ==> ValidRegulatoryRef(a.regulatoryRef))
    && (a.status == ACTIF ==> a.frozenBy == a.frozenAt == a.frozenReason == a.regulatoryRef == "")
  }

  lemma AppendLawful(trail: seq<Record>, r: Record)
    requires trail == [] || Lawful(trail)
    requires FollowsRules(trail + [r], |trail|)
    ensures Lawful(trail + [r])
  {
    forall k | 0 <= k < |trail| ensures FollowsRules(trail + [r], k) {
      assert (trail + [r])[..k] == trail[..k];
      assert FollowsRules(trail, k);
    }
  }

  /** One permitted transaction leaves its asset consistent. */
  lemma WrittenConsistent(w: World, ctx: Ctx, call: Call)
    requires Allowed(w, ctx, call)
    requires call.assetId in w ==> Consistent(call.assetId, w[call.assetId])
    ensures Consistent(call.assetId, Written(w, ctx, call))
    ensures call.assetId in w ==> w[call.assetId].provenance < Written(w, ctx, call).provenance
  {
    var trail := if call.Tokenize? then [] else w[call.assetId].provenance;
    var after := Written(w, ctx, call).provenance;
    var r := after[|after| - 1];
    assert after == trail + [r] && (trail + [r])[..|trail|] == trail;
    AppendLawful(trail, r);
    if trail != [] { assert after[0] == trail[0]; }
  }

  /**
   * The asset is the replay of its trail, in every reachable ledger and for every asset: owner, value,
   * status, transfer count and freeze data are the fold of the provenance records, and every record is
   * one the contract may append after its predecessors.
   */
  lemma {:induction false} AssetIsReplayOfTrail(txs: seq<Tx>, id: string)
    requires id in History(txs)
    ensures Consistent(id, History(txs)[id])
  {
    var before, tx := History(txs[..|txs| - 1]), txs[|txs| - 1];
    if id in before { AssetIsReplayOfTrail(txs[..|txs| - 1], id); }
    if Allowed(before, tx.ctx, tx.call) && tx.call.assetId == id {
      WrittenConsistent(before, tx.ctx, tx.call);
    }
  }

  /** Trails are append-only and issuance data is fixed, whatever happens later. */
  lemma {:induction false} TrailsOnlyGrow(txs: seq<Tx>, n: nat, id: string)
    requires n <= |txs| && id in History(txs[..n])
    ensures id in History(txs) && History(txs[..n])[id].provenance <= History(txs)[id].provenance
    ensures SameIssuance(History(txs[..n])[id], History(txs)[id])
    decreases |txs|
  {
    if n == |txs| {
      assert txs[..n] == txs;
    } else {
      var m, tx := |txs| - 1, txs[|txs| - 1];
      assert txs[..m][..n] == txs[..n];
      TrailsOnlyGrow(txs[..m], n, id);
      if Allowed(History(txs[..m]), tx.ctx, tx.call) && tx.call.assetId == id {
        AssetIsReplayOfTrail(txs[..m], id);
        WrittenConsistent(History(txs[..m]), tx.ctx, tx.call);
      }
    }
  }

  /** The committed transactions on an asset, in order. */
  ghost function CommittedOn(txs: seq<Tx>, id: string): seq<Tx> {
    if txs == [] then []
    else
      var init, tx := txs[..|txs| - 1], txs[|txs| - 1];
      CommittedOn(init, id)
      + if Allowed(History(init), tx.ctx, tx.call) && tx.call.assetId == id then [tx] else []
  }

  /** A record that says who asked for what, and when. */
  ghost predicate Documents(r: Record, tx: Tx) {
    && tx.ctx.msp == Some(r.actorMSP) && tx.ctx.dn == Some(r.actorDN) && tx.ctx.timestamp == Some(r.timestamp)
    && r.txId == tx.ctx.txId
    && match tx.call
       case Tokenize(_, _, _, _, _, nominal, _, _, why) =>
         && r.action == "TOKENISE" && r.amount == nominal && r.justification == why
         && r.fromOwner == "" && r.toOwner == r.actorDN
       case Transfer(_, to, why, price) =>
         r.action == "TRANSFERE" && r.toOwner == to && r.amount == price && r.justification == why
       case Freeze(_, reason, _) =>
         r.action == "GELE" && r.justification == reason && r.fromOwner == r.toOwner == "" && r.amount == 0.0
       case Unfreeze(_, why) =>
         r.action == "DEGELE" && r.justification == why && r.fromOwner == r.toOwner == "" && r.amount == 0.0
  }

  ghost function TrailIn(w: World, id: string): seq<Record> { if id in w then w[id].provenance else [] }

  lemma WrittenDocuments(w: World, tx: Tx)
    requires Allowed(w, tx.ctx, tx.call)
    ensures var id, after := tx.call.assetId, TrailIn(Invoke(w, tx.ctx, tx.call), tx.call.assetId);
            && |after| == |TrailIn(w, id)| + 1 && after[..|after| - 1] == TrailIn(w, id)
            && Documents(after[|after| - 1], tx)
  {
  }

  /**
   * The trail is a complete account: it has exactly one record for each committed transaction on the
   * asset, in order, naming its actor, time and arguments; failed invocations leave none.
   */
  lemma {:induction false} TrailDocumentsCommits(txs: seq<Tx>, id: string)
    ensures |TrailIn(History(txs), id)| == |CommittedOn(txs, id)|
    ensures forall k :: 0 <= k < |CommittedOn(txs, id)| ==>
      Documents(TrailIn(History(txs), id)[k], CommittedOn(txs, id)[k])
  {
    if txs != [] {
      var w, tx := History(txs[..|txs| - 1]), txs[|txs| - 1];
      TrailDocumentsCommits(txs[..|txs| - 1], id);
      if Allowed(w, tx.ctx, tx.call) && tx.call.assetId == id { WrittenDocuments(w, tx); }
    }
  }

  /** The reference of the freeze in force after some committed transactions on an asset, or "". */
  ghost function ReferenceAfter(committed: seq<Tx>): string {
    if committed == [] then ""
    else match committed[|committed| - 1].call
      case Freeze(_, _, reference) => reference
      case Transfer(_, _, _, _) => ReferenceAfter(committed[..|committed| - 1])
      case _ => ""
  }

  /** The issue of an asset with all its data. */
  ghost predicate Issues(tx: Tx, a: Asset) {
    && tx.ctx.msp == Some(a.issuerMSP) && tx.call.Tokenize?
    && tx.call == Tokenize(a.assetId, a.isin, a.assetType, a.assetName, a.issuerLEI, a.nominalValue, a.currency,
                           a.issuanceDate, tx.call.justification)
  }

  lemma WrittenKeepsIssue(w: World, tx: Tx)
    requires Allowed(w, tx.ctx, tx.call) && (tx.call.assetId in w ==> w[tx.call.assetId].assetId == tx.call.assetId)
    ensures var a := Written(w, tx.ctx, tx.call);
            && a.assetId == tx.call.assetId
            && if tx.call.assetId in w then SameIssuance(w[tx.call.assetId], a) else Issues(tx, a)
  {
  }

  /** The regulatory reference a transaction leaves. */
  lemma WrittenReference(w: World, tx: Tx)
    requires Allowed(w, tx.ctx, tx.call)
    ensures Written(w, tx.ctx, tx.call).regulatoryRef
         == match tx.call
            case Freeze(_, _, reference) => reference
            case Transfer(id, _, _, _) => w[id].regulatoryRef
            case _ => ""
  {
  }

  /**
   * The rest of the asset, from the committed transactions: the first one is the issue that gave it all its
   * issuance data, and the regulatory reference is that of the freeze in force.
   */
  lemma {:induction false} AssetFollowsCommits(txs: seq<Tx>, id: string)
    requires id in History(txs)
    ensures var a, committed := History(txs)[id], CommittedOn(txs, id);
            && committed != [] && a.assetId == id && Issues(committed[0], a)
            && a.regulatoryRef == ReferenceAfter(committed)
  {
    var init, tx := txs[..|txs| - 1], txs[|txs| - 1];
    var before, committed := History(init), CommittedOn(txs, id);
    if id in before { AssetFollowsCommits(init, id); } else { NothingCommitted(init, id); }
    if Allowed(before, tx.ctx, tx.call) && tx.call.assetId == id {
      WrittenKeepsIssue(before, tx);
      WrittenReference(before, tx);
      assert committed[..|committed| - 1] == CommittedOn(init, id);
    } else {
      assert committed == CommittedOn(init, id);
    }
  }

  lemma {:induction false} NothingCommitted(txs: seq<Tx>, id: string)
    requires id !in History(txs)
    ensures CommittedOn(txs, id) == []
  {
    if txs != [] { NothingCommitted(txs[..|txs| - 1], id); }
  }

  /** Issuance data never changes: whatever happens later, these fields stay as tokenised. */
  ghost predicate SameIssuance(a: Asset, b: Asset) {
    && a.assetId == b.assetId && a.isin == b.isin && a.assetType == b.assetType && a.assetName == b.assetName
    && a.issuerMSP == b.issuerMSP && a.issuerLEI == b.issuerLEI && a.nominalValue == b.nominalValue
    && a.currency == b.currency && a.issuanceDate == b.issuanceDate
  }

  // ---------------------------------------------------------------- freeze discipline

  /** Between records i and j there is a DEGELE. */
  ghost predicate ReleasedBetween(trail: seq<Record>, i: int, j: int) {
    exists k :: 0 <= i < k < j <= |trail| && trail[k].action == DEGELE
  }

  /** A GELE before j that no DEGELE between them has lifted. */
  ghost predicate FrozenBy(trail: seq<Record>, i: int, j: int) {
    0 <= i < j <= |trail| && trail[i].action == GELE && !ReleasedBetween(trail, i, j)
  }

  lemma LawfulPrefix(trail: seq<Record>, n: nat)
    requires Lawful(trail) && 0 < n <= |trail|
    ensures Lawful(trail[..n])
  {
    forall k | 0 <= k < n ensures FollowsRules(trail[..n], k) {
      assert trail[..n][..k] == trail[..k];
      assert FollowsRules(trail, k);
    }
  }

  /** Replaying a lawful trail ends frozen exactly when its last freeze has not been lifted. */
  lemma {:induction false} FrozenExactly(trail: seq<Record>)
    requires Lawful(trail)
    ensures Replay(trail).status == GELE || Replay(trail).status == ACTIF
    ensures Replay(trail).status == GELE <==> exists i :: FrozenBy(trail, i, |trail|)
  {
    var n := |trail| - 1;
    assert FollowsRules(trail, n);
    if n > 0 {
      var init := trail[..n];
      LawfulPrefix(trail, n);
      FrozenExactly(init);
      if trail[n].action == GELE {
        assert FrozenBy(trail, n, n + 1);
      } else if trail[n].action == DEGELE {
        forall i | 0 <= i < n + 1 && trail[i].action == GELE ensures ReleasedBetween(trail, i, n + 1) {
        }
      } else {
        forall i | 0 <= i <= n && trail[i].action == GELE ensures ReleasedBetween(trail, i, n + 1) {
          assert !FrozenBy(init, i, n);
          var k :| i < k < n && init[k].action == DEGELE;
          assert trail[k] == init[k];
        }
      }
    }
  }

  lemma FrozenInPrefix(trail: seq<Record>, i: int, j: int)
    requires 0 <= j <= |trail|
    ensures FrozenBy(trail[..j], i, j) <==> FrozenBy(trail, i, j)
  {
    if 0 <= i < j {
      assert forall k :: i < k < j ==> trail[..j][k] == trail[k];
      assert ReleasedBetween(trail[..j], i, j) ==> ReleasedBetween(trail, i, j);
      assert ReleasedBetween(trail, i, j) ==> ReleasedBetween(trail[..j], i, j);
    }
  }

  /**
   * Freeze discipline, on positions in the trail: TOKENISE stands exactly at the front; a GELE or a
   * TRANSFERE never follows a GELE without a DEGELE between them; every DEGELE lifts a standing GELE;
   * and each actor's MSP is the one its action is reserved for.
   */
  ghost predicate Disciplined(trail: seq<Record>) {
    && (forall k :: 0 <= k < |trail| ==> (trail[k].action == TOKENISE <==> k == 0))
    && (forall k :: 0 <= k < |trail| ==> trail[k].action in {TOKENISE, TRANSFERE, GELE, DEGELE})
    && (forall i, j :: 0 <= i < j < |trail| && trail[i].action == GELE && trail[j].action in {GELE, TRANSFERE} ==>
          ReleasedBetween(trail, i, j))
    && (forall j :: 0 <= j < |trail| && trail[j].action == DEGELE ==> exists i :: FrozenBy(trail, i, j))
    && (forall k :: 0 <= k < |trail| ==> RoleFor(trail[k].action, trail[k].actorMSP))
  }

  lemma LawfulIsDisciplined(trail: seq<Record>)
    requires Lawful(trail)
    ensures Disciplined(trail)
  {
    forall k | 0 <= k < |trail|
      ensures trail[k].action == TOKENISE <==> k == 0
      ensures trail[k].action in {TOKENISE, TRANSFERE, GELE, DEGELE}
      ensures RoleFor(trail[k].action, trail[k].actorMSP)
    {
      assert FollowsRules(trail, k);
    }
    forall j | 0 < j < |trail|
      ensures trail[j].action == DEGELE ==> exists i :: FrozenBy(trail, i, j)
      ensures trail[j].action in {GELE, TRANSFERE} ==> forall i :: !FrozenBy(trail, i, j)
    {
      assert FollowsRules(trail, j);
      LawfulPrefix(trail, j);
      FrozenExactly(trail[..j]);
      forall i ensures FrozenBy(trail[..j], i, j) <==> FrozenBy(trail, i, j) { FrozenInPrefix(trail, i, j); }
    }
    forall i, j | 0 <= i < j < |trail| && trail[i].action == GELE && trail[j].action in {GELE, TRANSFERE}
      ensures ReleasedBetween(trail, i, j)
    {
      assert !FrozenBy(trail, i, j);
    }
  }

  /** Every trail of every reachable ledger keeps the freeze discipline. */
  lemma ReachableTrailsDisciplined(txs: seq<Tx>, id: string)
    requires id in History(txs)
    ensures Disciplined(History(txs)[id].provenance)
  {
    AssetIsReplayOfTrail(txs, id);
    LawfulIsDisciplined(History(txs)[id].provenance);
  }

  /** Every transfer hands over from the owner the earlier records give. */
  lemma TransfersChainOwners(txs: seq<Tx>, id: string, k: nat)
    requires id in History(txs) && k < |History(txs)[id].provenance|
    requires History(txs)[id].provenance[k].action == TRANSFERE
    ensures var trail := History(txs)[id].provenance;
            k > 0 && trail[k].fromOwner == Replay(trail[..k]).owner
  {
    AssetIsReplayOfTrail(txs, id);
    assert FollowsRules(History(txs)[id].provenance, k);
  }

  // ---------------------------------------------------------------- admission

  /** A client the certificate, clock and stub calls answer for, whose MSP is the given one up to letter case. */
  ghost predicate Acts(ctx: Ctx, msp: string) {
    && ctx.msp.Some? && EqualFold(ctx.msp.value, msp)
    && ctx.dn.Some? && ctx.dn.value != "" && ctx.timestamp.Some? && !ctx.stubFails
  }

  /** Some GELE of the asset's trail has not been lifted. */
  ghost predicate FrozenNow(txs: seq<Tx>, id: string) {
    exists i :: FrozenBy(TrailIn(History(txs), id), i, |TrailIn(History(txs), id)|)
  }

  /**
   * What commits, both ways, in every reachable ledger: the bank issues well-formed assets not issued
   * before and transfers issued ones at a positive price while they are not frozen; the regulator freezes
   * issued assets that are not frozen with a well-formed reference, and releases frozen ones. Whether an
   * asset is issued or frozen is what its committed transactions say.
   */
  lemma AllowedExactly(txs: seq<Tx>, ctx: Ctx, call: Call)
    ensures var issued := CommittedOn(txs, call.assetId) != [];
            var frozen := FrozenNow(txs, call.assetId);
            Allowed(History(txs), ctx, call)
            <==> match call
                 case Tokenize(id, isin, _, _, lei, nominal, currency, _, _) =>
                   && Acts(ctx, "BANK01MSP") && !issued && nominal > 0.0 && ValidAssetId(id)
                   && ValidIsin(isin) && ValidLei(lei) && ValidCurrency(currency)
                 case Transfer(_, _, _, price) => Acts(ctx, "BANK01MSP") && issued && !frozen && price > 0.0
                 case Freeze(_, _, reference) =>
                   Acts(ctx, "REG01MSP") && issued && !frozen && ValidRegulatoryRef(reference)
                 case Unfreeze(_, _) => Acts(ctx, "REG01MSP") && issued && frozen
  {
    IssuedExactly(txs, call.assetId);
    if call.assetId in History(txs) { StatusExactly(txs, call.assetId); }
    RolesExactly(ctx, "BANK01MSP", "TokenizeAsset");
    RolesExactly(ctx, "BANK01MSP", "TransferAsset");
    RolesExactly(ctx, "REG01MSP", "FreezeAsset");
    RolesExactly(ctx, "REG01MSP", "UnfreezeAsset");
  }

  lemma IssuedExactly(txs: seq<Tx>, id: string)
    ensures id in History(txs) <==> CommittedOn(txs, id) != []
  {
    if id in History(txs) { AssetFollowsCommits(txs, id); } else { NothingCommitted(txs, id); }
  }

  lemma StatusExactly(txs: seq<Tx>, id: string)
    requires id in History(txs)
    ensures History(txs)[id].status == if FrozenNow(txs, id) then "GELE" else "ACTIF"
  {
    AssetIsReplayOfTrail(txs, id);
    var trail := TrailIn(History(txs), id);
    FrozenExactly(trail);
    assert |GELE| != |ACTIF|;
    if FrozenNow(txs, id) { var i :| FrozenBy(trail, i, |trail|); }
  }

  lemma RolesExactly(ctx: Ctx, msp: string, function_: string)
    requires msp != ""
    requires if function_ in {"TokenizeAsset", "TransferAsset"} then msp == "BANK01MSP"
             else function_ in {"FreezeAsset", "UnfreezeAsset"} && msp == "REG01MSP"
    ensures Identified(ctx, function_) <==> Acts(ctx, msp)
  {
    assert AuthorisedMSPs(function_) == [msp];
    assert AuthorisedMSPs(function_)[0] == msp;
  }
}
