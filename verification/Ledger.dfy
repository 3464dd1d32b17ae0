/** The asset chaincode: roles, format checks and the four state-changing transactions. */
module Ledger {
  import opened Bytes

  // ---------------------------------------------------------------- records

  const TOKENISE := "TOKENISE"
  const TRANSFERE := "TRANSFERE"
  const GELE := "GELE"
  const DEGELE := "DEGELE"

  /** Asset statuses share the spelling GELE with the freeze action. */
  const ACTIF := "ACTIF"

  /** A transaction time, and the RFC 3339 text the runtime prints for it. */
  datatype Instant = Instant(nanoseconds: int, rfc3339: string)

  datatype Record = Record(
    txId: string, timestamp: Instant, actorMSP: string, actorDN: string, action: string,
    fromOwner: string, toOwner: string, amount: real, justification: string)

  datatype Asset = Asset(
    assetId: string, isin: string, assetType: string, assetName: string, issuerMSP: string, issuerLEI: string,
    currentOwner: string, nominalValue: real, currentValue: real, currency: string, status: string,
    issuanceDate: string, frozenBy: string, frozenAt: string, frozenReason: string, regulatoryRef: string,
    totalTransfers: nat, provenance: seq<Record>)

  type World = map<string, Asset>

  /** The invoking client: what the identity and stub calls answer, `None` where they fail. */
  datatype Ctx = Ctx(msp: Option<string>, dn: Option<string>, timestamp: Option<Instant>, txId: string, stubFails: bool)

  // ---------------------------------------------------------------- access

  /** Unicode simple folding onto ASCII: besides upper case, two letters fold to 'k' and 's'. */
  function FoldChar(c: char): char {
    if 'A' <= c <= 'Z' then c - 'A' + 'a'
    else if c == '\U{212A}' then 'k'
    else if c == '\U{017F}' then 's'
    else c
  }

  /** `strings.EqualFold` against an ASCII string. */
  predicate EqualFold(s: string, ascii: string) {
    |s| == |ascii| && forall i :: 0 <= i < |s| ==> FoldChar(s[i]) == FoldChar(ascii[i])
  }

  function AuthorisedMSPs(function_: string): seq<string> {
    if function_ == "TokenizeAsset" || function_ == "TransferAsset" then ["BANK01MSP"]
    else if function_ == "FreezeAsset" || function_ == "UnfreezeAsset" then ["REG01MSP"]
    else if function_ in ["QueryAssets", "GetAsset", "GetAssetHistory", "GetProvenanceTrail"]
    then ["BANK01MSP", "REG01MSP"]
    else []
  }

  predicate VerifyRole(ctx: Ctx, function_: string) {
    && ctx.msp.Some? && ctx.msp.value != ""
    && exists i :: 0 <= i < |AuthorisedMSPs(function_)| && EqualFold(ctx.msp.value, AuthorisedMSPs(function_)[i])
  }

  /** The role check passed and the certificate, timestamp and stub calls all answer. */
  predicate Identified(ctx: Ctx, function_: string) {
    && VerifyRole(ctx, function_)
    && ctx.dn.Some? && ctx.dn.value != "" && ctx.timestamp.Some? && !ctx.stubFails
  }

  // ---------------------------------------------------------------- format checks

  predicate Upper(c: char) { 'A' <= c <= 'Z' }
  predicate Digit(c: char) { '0' <= c <= '9' }
  predicate UpperOrDigit(c: char) { Upper(c) || Digit(c) }

  predicate AllUpper(s: string) { forall i :: 0 <= i < |s| ==> Upper(s[i]) }
  predicate AllDigits(s: string) { forall i :: 0 <= i < |s| ==> Digit(s[i]) }
  predicate AllUpperOrDigit(s: string) { forall i :: 0 <= i < |s| ==> UpperOrDigit(s[i]) }

  function SplitDash(s: string): (parts: seq<string>)
    ensures |parts| > 0
  {
    if s == "" then [""]
    else
      var rest := SplitDash(s[1..]);
      if s[0] == '-' then [""] + rest else [[s[0]] + rest[0]] + rest[1..]
  }

  /** ^RWA-[A-Z]{2,12}-[A-Z]{2,6}-[0-9]{4}-[0-9]{3}$ */
  predicate ValidAssetId(s: string) {
    var p := SplitDash(s);
    && |p| == 5 && p[0] == "RWA" && 2 <= |p[1]| <= 12 && AllUpper(p[1]) && 2 <= |p[2]| <= 6 && AllUpper(p[2])
    && |p[3]| == 4 && AllDigits(p[3]) && |p[4]| == 3 && AllDigits(p[4])
  }

  /** ^[A-Z]{2,6}-[A-Z0-9]{2,8}-[0-9]{4}-[A-Z0-9]{3,8}$ */
  predicate ValidRegulatoryRef(s: string) {
    var p := SplitDash(s);
    && |p| == 4 && 2 <= |p[0]| <= 6 && AllUpper(p[0]) && 2 <= |p[1]| <= 8 && AllUpperOrDigit(p[1])
    && |p[2]| == 4 && AllDigits(p[2]) && 3 <= |p[3]| <= 8 && AllUpperOrDigit(p[3])
  }

  predicate ValidCurrency(s: string) { s in ["EUR", "USD", "GBP", "CHF", "JPY", "MAD", "AED", "SGD"] }

  predicate ValidIsin(s: string) {
    |s| == 12 && AllUpper(s[..2]) && AllUpperOrDigit(s[2..])
  }

  predicate ValidLei(s: string) { |s| == 20 && AllUpperOrDigit(s) }

  // ---------------------------------------------------------------- transactions

  datatype Call =
    | Tokenize(assetId: string, isin: string, assetType: string, assetName: string, lei: string,
               nominal: real, currency: string, issuanceDate: string, justification: string)
    | Transfer(assetId: string, toOwner: string, justification: string, price: real)
    | Freeze(assetId: string, reason: string, reference: string)
    | Unfreeze(assetId: string, justification: string)

  /** The guards of a transaction: all of them pass, or it fails and commits nothing. */
  predicate Allowed(w: World, ctx: Ctx, call: Call) {
    match call
    case Tokenize(id, isin, _, _, lei, nominal, currency, _, _) =>
      && Identified(ctx, "TokenizeAsset")
      && ValidAssetId(id) && ValidIsin(isin) && ValidLei(lei) && ValidCurrency(currency) && nominal > 0.0
      && id !in w
    case Transfer(id, _, _, price) =>
      Identified(ctx, "TransferAsset") && price > 0.0 && id in w && w[id].status == ACTIF
    case Freeze(id, _, reference) =>
      Identified(ctx, "FreezeAsset") && ValidRegulatoryRef(reference) && id in w && w[id].status != GELE
    case Unfreeze(id, _) =>
      Identified(ctx, "UnfreezeAsset") && id in w && w[id].status == GELE
  }

  function Entry(ctx: Ctx, action: string, from: string, to: string, amount: real, justification: string): Record
    requires ctx.msp.Some? && ctx.dn.Some? && ctx.timestamp.Some?
  {
    Record(ctx.txId, ctx.timestamp.value, ctx.msp.value, ctx.dn.value, action, from, to, amount, justification)
  }

  /** The asset a permitted transaction writes back. */
  function Written(w: World, ctx: Ctx, call: Call): Asset
    requires Allowed(w, ctx, call)
  {
    match call
    case Tokenize(id, isin, assetType, name, lei, nominal, currency, issuanceDate, justification) =>
      var dn := ctx.dn.value;
      Asset(id, isin, assetType, name, ctx.msp.value, lei, dn, nominal, nominal, currency, ACTIF, issuanceDate,
            "", "", "", "", 0, [Entry(ctx, TOKENISE, "", dn, nominal, justification)])
    case Transfer(id, to, justification, price) =>
      var a := w[id];
      a.(provenance := a.provenance + [Entry(ctx, TRANSFERE, a.currentOwner, to, price, justification)],
         currentOwner := to, currentValue := price, totalTransfers := a.totalTransfers + 1)
    case Freeze(id, reason, reference) =>
      var a := w[id];
      a.(status := GELE, frozenBy := ctx.dn.value, frozenAt := ctx.timestamp.value.rfc3339, frozenReason := reason,
         regulatoryRef := reference, provenance := a.provenance + [Entry(ctx, GELE, "", "", 0.0, reason)])
    case Unfreeze(id, justification) =>
      var a := w[id];
      a.(status := ACTIF, frozenBy := "", frozenAt := "", frozenReason := "", regulatoryRef := "",
         provenance := a.provenance + [Entry(ctx, DEGELE, "", "", 0.0, justification)])
  }

  function Invoke(w: World, ctx: Ctx, call: Call): World {
    if Allowed(w, ctx, call) then w[call.assetId := Written(w, ctx, call)] else w
  }

  /** Transfers above this price raise the reporting event of article 68 of MiCA. */
  const MICA_THRESHOLD := 1000000.0

  // ---------------------------------------------------------------- the contract object

  /** The chaincode over its world state; each method answers whether it committed and which events it set. */
  class Contract {
    var world: World

    constructor ()
      ensures world == map[]
    {
      world := map[];
    }

    method TokenizeAsset(ctx: Ctx, id: string, isin: string, assetType: string, name: string, lei: string,
                         nominal: real, currency: string, issuanceDate: string, justification: string)
        returns (ok: bool, events: seq<string>)
      modifies this
      ensures var call := Tokenize(id, isin, assetType, name, lei, nominal, currency, issuanceDate, justification);
              && ok == Allowed(old(world), ctx, call) && world == Invoke(old(world), ctx, call)
      ensures ok ==> events == ["AssetCreated"]
    {
      events := [];
      if !VerifyRole(ctx, "TokenizeAsset") { return false, events; }
      if !ValidAssetId(id) || !ValidIsin(isin) || !ValidLei(lei) || !ValidCurrency(currency) { return false, events; }
      if nominal <= 0.0 { return false, events; }
      if id in world { return false, events; }
      if ctx.dn.None? || ctx.dn.value == "" || ctx.timestamp.None? || ctx.stubFails { return false, events; }
      var record := Entry(ctx, TOKENISE, "", ctx.dn.value, nominal, justification);
      var asset := Asset(id, isin, assetType, name, ctx.msp.value, lei, ctx.dn.value, nominal, nominal, currency,
                         ACTIF, issuanceDate, "", "", "", "", 0, [record]);
      world := world[id := asset];
      events := events + ["AssetCreated"];
      ok := true;
    }

    method TransferAsset(ctx: Ctx, id: string, toOwner: string, justification: string, price: real)
        returns (ok: bool, events: seq<string>)
      modifies this
      ensures var call := Transfer(id, toOwner, justification, price);
              && ok == Allowed(old(world), ctx, call) && world == Invoke(old(world), ctx, call)
      ensures ok ==> events == (if price > 1000000.0 then ["MiCAThresholdExceeded"] else []) + ["AssetTransferred"]
    {
      events := [];
      if !VerifyRole(ctx, "TransferAsset") || price <= 0.0 { return false, events; }
      if id !in world || world[id].status != ACTIF { return false, events; }
      if price > MICA_THRESHOLD { events := events + ["MiCAThresholdExceeded"]; }
      if ctx.dn.None? || ctx.dn.value == "" || ctx.timestamp.None? || ctx.stubFails { return false, events; }
      var asset := world[id];
      var record := Entry(ctx, TRANSFERE, asset.currentOwner, toOwner, price, justification);
      asset := asset.(provenance := asset.provenance + [record]);
      asset := asset.(currentOwner := toOwner);
      asset := asset.(currentValue := price);
      asset := asset.(totalTransfers := asset.totalTransfers + 1);
      world := world[id := asset];
      events := events + ["AssetTransferred"];
      ok := true;
    }

    method FreezeAsset(ctx: Ctx, id: string, reason: string, reference: string) returns (ok: bool, events: seq<string>)
      modifies this
      ensures var call := Freeze(id, reason, reference);
              && ok == Allowed(old(world), ctx, call) && world == Invoke(old(world), ctx, call)
      ensures ok ==> events == ["AssetFrozen"]
    {
      events := [];
      if !VerifyRole(ctx, "FreezeAsset") || !ValidRegulatoryRef(reference) { return false, events; }
      if id !in world || world[id].status == GELE { return false, events; }
      if ctx.dn.None? || ctx.dn.value == "" || ctx.timestamp.None? || ctx.stubFails { return false, events; }
      var asset := world[id];
      asset := asset.(status := GELE, frozenBy := ctx.dn.value, frozenAt := ctx.timestamp.value.rfc3339);
      asset := asset.(frozenReason := reason, regulatoryRef := reference);
      asset := asset.(provenance := asset.provenance + [Entry(ctx, GELE, "", "", 0.0, reason)]);
      world := world[id := asset];
      events := events + ["AssetFrozen"];
      ok := true;
    }

    method UnfreezeAsset(ctx: Ctx, id: string, justification: string) returns (ok: bool, events: seq<string>)
      modifies this
      ensures var call := Unfreeze(id, justification);
              && ok == Allowed(old(world), ctx, call) && world == Invoke(old(world), ctx, call)
      ensures ok ==> events == ["AssetUnfrozen"]
    {
      events := [];
      if !VerifyRole(ctx, "UnfreezeAsset") { return false, events; }
      if id !in world || world[id].status != GELE { return false, events; }
      if ctx.dn.None? || ctx.dn.value == "" || ctx.timestamp.None? || ctx.stubFails { return false, events; }
      var asset := world[id];
      asset := asset.(status := ACTIF, frozenBy := "", frozenAt := "", frozenReason := "", regulatoryRef := "");
      asset := asset.(provenance := asset.provenance + [Entry(ctx, DEGELE, "", "", 0.0, justification)]);
      world := world[id := asset];
      events := events + ["AssetUnfrozen"];
      ok := true;
    }
  }
}
