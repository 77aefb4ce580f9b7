/**
 * The sync routine itself: the process-wide "sync in progress" flag and one run over the
 * source catalog, with every call to the target system recorded in order.
 */
module Sync {
  import opened Wrappers
  import opened Json
  import opened PartLookup
  import Text
  import opened Catalog
  import opened SyncPlan

  /** The target system as one run sees it: the list-view setting and the replies its
      list endpoint gives to the "equals" and "contains" queries for each SKU. */
  datatype TargetApi = TargetApi(viewId: Option<string>,
                                 equalsReply: string -> Reply,
                                 containsReply: string -> Reply)

  /** `if (existingPart)` after `getPartBySku(sku, token)`. Every item the lookup returns
      is truthy, so a part exists exactly when the lookup returned one. A failed lookup
      counts as "not found", so the part is created: availability is preferred over strict
      duplicate prevention. The same holds for every SKU when no list view is configured. */
  function PartExists(api: TargetApi, sku: string): (b: bool)
    ensures b <==> GetPartBySku(api.viewId, sku, api.equalsReply(sku), api.containsReply(sku)).Some?
    ensures !ViewConfigured(api.viewId) || api.equalsReply(sku).Failed? ==> !b
  {
    var r := GetPartBySku(api.viewId, sku, api.equalsReply(sku), api.containsReply(sku));
    r.Some? && Truthy(r.value)
  }

  class Orchestrator {
    /** `isSyncInProgress`. */
    var running: bool
    /** The log of the routine's `getPartBySku` (`Lookup`) and `addPartToXait` (`Add`)
        calls, in order, over the life of the process. A `Lookup` stands for up to two list
        requests, and for none when no list view is configured. */
    var calls: seq<Call>
    /** The parts the target system accepted. */
    var created: seq<Part>

    constructor ()
      ensures !running && calls == [] && created == []
    {
      running := false;
      calls := [];
      created := [];
    }

    /** `syncProducts()`. `loginOk` is false when the login request fails; `catalog` is
        None when the product list cannot be fetched; `accepts` says whether the target
        accepts a posted part (a rejected post is swallowed). */
    method SyncProducts(loginOk: bool, catalog: Option<seq<Product>>, api: TargetApi,
                        accepts: Part -> bool, ghost found: string -> bool)
      requires forall sku {:trigger PartExists(api, sku)} :: found(sku) == PartExists(api, sku)
      modifies this
      ensures old(running) ==> running && calls == old(calls) && created == old(created)
      ensures !old(running) ==> !running
      ensures !old(running) ==> calls == old(calls) + Run(loginOk, catalog, found)
      ensures !old(running) ==>
        created == old(created) + Created(Run(loginOk, catalog, found), accepts)
    {
      if running {
        return;
      }
      running := true;
      if loginOk && catalog.Some? {
        var products := catalog.value;
        var processed: set<string> := {};
        ghost var cs: seq<Candidate> := [];
        var i := 0;
        while i < |products|
          invariant i <= |products|
          invariant running
          invariant forall k :: 0 <= k < i ==> products[k].variants.Some?
          invariant cs == Candidates(products[..i])
          invariant processed == Keys(cs)
          invariant calls == old(calls) + Trace(Survivors(cs), found)
          invariant created == old(created) + Created(Trace(Survivors(cs), found), accepts)
        {
          if products[i].variants.None? {
            // iterating a non-array throws; the handler ends the run
            break;
          }
          var made, kept;
          processed, made, kept := SyncVariants(products[i], processed, cs, api, found, accepts);
          CreatedAppend(Trace(Survivors(cs), found), made, accepts);
          AppendAssoc(old(calls), Trace(Survivors(cs), found), made);
          AppendAssoc(old(created), Created(Trace(Survivors(cs), found), accepts), kept);
          calls := calls + made;
          created := created + kept;
          CandidatesStep(products, i);
          ReachedStep(products, i);
          cs := cs + CandidatesOf(products[i]);
          i := i + 1;
        }
        ReachedIsPrefix(products, i);
      }
      running := false;
    }
  }

  /** The inner loop of `syncProducts()`: the variants of one product, continuing from
      the candidates `cs` already seen in this run, whose keys are `processed`. Returns
      the new keys, the calls made for this product and the parts the target accepted. */
  method SyncVariants(product: Product, processed: set<string>, ghost cs: seq<Candidate>,
                      api: TargetApi, ghost found: string -> bool, accepts: Part -> bool)
    returns (processed': set<string>, made: seq<Call>, kept: seq<Part>)
    requires product.variants.Some?
    requires processed == Keys(cs)
    requires forall sku {:trigger PartExists(api, sku)} :: found(sku) == PartExists(api, sku)
    ensures processed' == Keys(cs + CandidatesOf(product))
    ensures Trace(Survivors(cs), found) + made == Trace(Survivors(cs + CandidatesOf(product)), found)
    ensures kept == Created(made, accepts)
  {
    var variants := product.variants.value;
    ghost var seen := cs;
    ghost var t0 := Trace(Survivors(cs), found);
    processed' := processed;
    made, kept := [], [];
    var j := 0;
    while j < |variants|
      invariant j <= |variants|
      invariant seen == cs + VariantCandidates(product, variants[..j])
      invariant processed' == Keys(seen)
      invariant t0 + made == Trace(Survivors(seen), found)
      invariant kept == Created(made, accepts)
    {
      var sku := VariantSku(variants[j]);
      ghost var c := Candidate(product, sku);
      var step, stepKept;
      processed', step, stepKept := SyncVariant(product, sku, processed', api, accepts);
      assert step == Step(c, Keys(seen), found(sku));
      SurvivorsTraceStep(seen, c, found);
      KeysStep(seen, c);
      CreatedAppend(made, step, accepts);
      AppendAssoc(t0, made, step);
      made := made + step;
      kept := kept + stepKept;
      VariantCandidatesStep(cs, product, variants, j);
      seen := seen + [c];
      j := j + 1;
    }
    assert variants[..j] == variants;
  }

  /** The body of the inner loop for one variant whose SKU is `sku`: skip it when the SKU
      is empty or its key is in `processed`; otherwise record the key, look the SKU up and
      post a new part when the lookup finds nothing. */
  method SyncVariant(product: Product, sku: string, processed: set<string>, api: TargetApi,
                     accepts: Part -> bool)
    returns (processed': set<string>, made: seq<Call>, kept: seq<Part>)
    ensures processed' == processed + (if sku != [] then {Text.Upper(sku)} else {})
    ensures made == Step(Candidate(product, sku), processed, PartExists(api, sku))
    ensures kept == Created(made, accepts)
  {
    var normalizedSku := Text.Upper(sku);
    processed', made, kept := processed, [], [];
    if sku == [] {
      // skipped: no SKU
    } else if normalizedSku in processed {
      // skipped: duplicate within this run
    } else {
      processed' := processed + {normalizedSku};
      var part := NewPart(product, sku);
      made := made + [Lookup(sku)];
      var existingPart := GetPartBySku(api.viewId, sku, api.equalsReply(sku), api.containsReply(sku));
      if existingPart.Some? && Truthy(existingPart.value) {
        // the part exists: nothing is written
      } else {
        made := made + [Add(part)];
        if accepts(part) {
          kept := kept + [part];
        }
      }
      CreatedOfVisit(Candidate(product, sku), PartExists(api, sku), accepts);
    }
  }
}
