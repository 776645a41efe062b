/**
  The index from pricing-conditions id to (schema, partner, direction) infos that the loader builds
  once: streamPricingConditionsInfos for the vendor and the customer side, concatenated and
  collected into an ImmutableSetMultimap.

  The multimap is the duplicate-free sequence of its entries in insertion order: its key set is the
  distinct schema ids in order of first appearance, and get(id) the entries with that id, in order.
*/
module ConditionsIndex {
  import opened Wrappers
  import opened PricingTypes

  type Index = seq<PricingConditionsInfo>

  /** Map.get on a partner-to-schema map. */
  function SchemaIdOf(m: seq<(PartnerId, int)>, partnerId: PartnerId): Option<int> {
    if m == [] then None
    else if m[0].0 == partnerId then Some(m[0].1)
    else SchemaIdOf(m[1..], partnerId)
  }

  lemma {:induction false} SchemaIdOfFinds(m: seq<(PartnerId, int)>, partnerId: PartnerId, s: int)
    requires DistinctKeys(m)
    ensures SchemaIdOf(m, partnerId) == Some(s) <==> (partnerId, s) in m
  {
    if m != [] {
      assert DistinctKeys(m[1..]) by {
        forall i, j | 0 <= i < j < |m[1..]| ensures m[1..][i].0 != m[1..][j].0 {
          assert m[1..][i] == m[i + 1] && m[1..][j] == m[j + 1];
        }
      }
      SchemaIdOfFinds(m[1..], partnerId, s);
    }
  }

  lemma SchemaIdOfAbsent(m: seq<(PartnerId, int)>, partnerId: PartnerId)
    requires DistinctKeys(m)
    ensures SchemaIdOf(m, partnerId).None? <==> forall i | 0 <= i < |m| :: m[i].0 != partnerId
  {
    if SchemaIdOf(m, partnerId).None? {
      forall i | 0 <= i < |m| ensures m[i].0 != partnerId {
        SchemaIdOfFinds(m, partnerId, m[i].1);
      }
    } else {
      var s := SchemaIdOf(m, partnerId).value;
      SchemaIdOfFinds(m, partnerId, s);
      var i :| 0 <= i < |m| && m[i] == (partnerId, s);
      assert m[i].0 == partnerId;
    }
  }

  /**
    getPricingConditionsIdByBPartner: the schema the map assigns to the looked-up partner's id,
    and null (None) exactly when the map has no entry for it.
  */
  function GetPricingConditionsIdByBPartner(bpartner: LookupValue, m: DiscountSchemaMap): (r: Option<PricingConditionsId>)
    ensures forall s :: r == Some(s) <==> (bpartner.id, s) in m
    ensures r.None? <==> forall i | 0 <= i < |m| :: m[i].0 != bpartner.id
  {
    assert forall s :: SchemaIdOf(m, bpartner.id) == Some(s) <==> (bpartner.id, s) in m by {
      forall s ensures SchemaIdOf(m, bpartner.id) == Some(s) <==> (bpartner.id, s) in m {
        SchemaIdOfFinds(m, bpartner.id, s);
      }
    }
    SchemaIdOfAbsent(m, bpartner.id);
    SchemaIdOf(m, bpartner.id)
  }

  /**
    The infos of the map entries `entries` (a suffix of the map `m`): a partner whose lookup is null
    is skipped; a looked-up partner whose id has no schema in `m` makes the info builder throw on
    its @NonNull schema id.
  */
  function InfosFrom(
    entries: seq<(PartnerId, int)>, m: DiscountSchemaMap,
    lookupBPartner: PartnerId -> Option<LookupValue>, isSOTrx: bool): (r: Result<seq<PricingConditionsInfo>, LoadError>)
    ensures r.Failure? ==> r.error == NullPricingConditionsId
    ensures r.Success? ==> |r.value| <= |entries| && forall info | info in r.value :: info.isSOTrx == isSOTrx
  {
    if entries == [] then Success([])
    else
      match lookupBPartner(entries[0].0)
      case None => InfosFrom(entries[1..], m, lookupBPartner, isSOTrx)
      case Some(bpartner) =>
        match GetPricingConditionsIdByBPartner(bpartner, m)
        case None => Failure(NullPricingConditionsId)
        case Some(pricingConditionsId) =>
          var rest :- InfosFrom(entries[1..], m, lookupBPartner, isSOTrx);
          Success([PricingConditionsInfo(pricingConditionsId, bpartner, isSOTrx)] + rest)
  }

  /** streamPricingConditionsInfos(isSOTrx). */
  function StreamPricingConditionsInfos(env: Collaborators, adClientId: int, isSOTrx: bool): (r: Result<seq<PricingConditionsInfo>, LoadError>)
    ensures r.Success? ==> forall info | info in r.value :: info.isSOTrx == isSOTrx
  {
    var m := env.retrieveDiscountSchemaIds(adClientId, isSOTrx);
    InfosFrom(m, m, env.lookupBPartner, isSOTrx)
  }

  /** Some entry's partner is looked up, but its looked-up id has no schema in `m`. */
  ghost predicate HasUnmappedLookup(entries: seq<(PartnerId, int)>, m: seq<(PartnerId, int)>, lookupBPartner: PartnerId -> Option<LookupValue>) {
    exists i | 0 <= i < |entries| ::
      lookupBPartner(entries[i].0).Some? && SchemaIdOf(m, lookupBPartner(entries[i].0).value.id).None?
  }

  /** The info a map entry yields: a partner some entry looks up to, with the schema the map gives its id. */
  ghost predicate ResolvedBy(entries: seq<(PartnerId, int)>, m: seq<(PartnerId, int)>, lookupBPartner: PartnerId -> Option<LookupValue>, isSOTrx: bool, info: PricingConditionsInfo) {
    info.isSOTrx == isSOTrx &&
    (exists i | 0 <= i < |entries| :: lookupBPartner(entries[i].0) == Some(info.bpartner)) &&
    SchemaIdOf(m, info.bpartner.id) == Some(info.pricingConditionsId)
  }

  lemma {:induction false} InfosFromContents(
    entries: seq<(PartnerId, int)>, m: DiscountSchemaMap,
    lookupBPartner: PartnerId -> Option<LookupValue>, isSOTrx: bool)
    ensures InfosFrom(entries, m, lookupBPartner, isSOTrx).Failure? <==> HasUnmappedLookup(entries, m, lookupBPartner)
    ensures InfosFrom(entries, m, lookupBPartner, isSOTrx).Success? ==>
      forall info :: info in InfosFrom(entries, m, lookupBPartner, isSOTrx).value <==> ResolvedBy(entries, m, lookupBPartner, isSOTrx, info)
  {
    if entries != [] {
      var rest := entries[1..];
      InfosFromContents(rest, m, lookupBPartner, isSOTrx);
      assert forall i | 0 <= i < |rest| :: rest[i] == entries[i + 1];
      assert HasUnmappedLookup(entries, m, lookupBPartner) <==>
        (lookupBPartner(entries[0].0).Some? && SchemaIdOf(m, lookupBPartner(entries[0].0).value.id).None?) ||
        HasUnmappedLookup(rest, m, lookupBPartner)
      by {
        if HasUnmappedLookup(entries, m, lookupBPartner) {
          var i :| 0 <= i < |entries| && lookupBPartner(entries[i].0).Some? && SchemaIdOf(m, lookupBPartner(entries[i].0).value.id).None?;
          if i > 0 {
            assert rest[i - 1] == entries[i];
          }
        }
      }
      forall info ensures ResolvedBy(entries, m, lookupBPartner, isSOTrx, info) <==>
        (lookupBPartner(entries[0].0) == Some(info.bpartner) && info.isSOTrx == isSOTrx &&
          SchemaIdOf(m, info.bpartner.id) == Some(info.pricingConditionsId)) ||
        ResolvedBy(rest, m, lookupBPartner, isSOTrx, info)
      {
        if ResolvedBy(entries, m, lookupBPartner, isSOTrx, info) {
          var i :| 0 <= i < |entries| && lookupBPartner(entries[i].0) == Some(info.bpartner);
          if i > 0 {
            assert rest[i - 1] == entries[i];
          }
        }
      }
      match lookupBPartner(entries[0].0)
      case None =>
      case Some(bpartner) =>
        assert GetPricingConditionsIdByBPartner(bpartner, m) == SchemaIdOf(m, bpartner.id);
    }
  }

  /** The entries of `s` without repetitions, each kept at its first occurrence. */
  function Dedup(s: seq<PricingConditionsInfo>): (r: seq<PricingConditionsInfo>)
    ensures forall info :: info in r <==> info in s
    ensures NoDuplicates(r)
  {
    if s == [] then []
    else
      var init := Dedup(s[..|s| - 1]);
      assert s == s[..|s| - 1] + [s[|s| - 1]];
      if s[|s| - 1] in init then init else init + [s[|s| - 1]]
  }

  ghost predicate NoDuplicates<T>(s: seq<T>) {
    forall i, j | 0 <= i < j < |s| :: s[i] != s[j]
  }

  /**
    getPricingConditionsInfosIndexedById, first call: vendor infos, then customer infos, collected
    into a set multimap. Any exception of the info stream propagates.
  */
  function BuildIndex(env: Collaborators, adClientId: int): Result<Index, LoadError> {
    var vendorInfos :- StreamPricingConditionsInfos(env, adClientId, false);
    var customerInfos :- StreamPricingConditionsInfos(env, adClientId, true);
    Success(Dedup(vendorInfos + customerInfos))
  }

  /**
    An info is indexed when, on its own side, some partner key of the repository's map looks up to
    its partner and the map gives that partner's id its schema: both sides are included, partners
    whose lookup is null contribute nothing.
  */
  ghost predicate Indexed(env: Collaborators, adClientId: int, info: PricingConditionsInfo) {
    var m := env.retrieveDiscountSchemaIds(adClientId, info.isSOTrx);
    (exists i | 0 <= i < |m| :: env.lookupBPartner(m[i].0) == Some(info.bpartner)) &&
    (info.bpartner.id, info.pricingConditionsId) in m
  }

  /** A side's map has a partner that looks up to a value whose id the map does not contain. */
  ghost predicate LookupLeavesMap(env: Collaborators, adClientId: int, isSOTrx: bool) {
    var m := env.retrieveDiscountSchemaIds(adClientId, isSOTrx);
    exists i | 0 <= i < |m| ::
      env.lookupBPartner(m[i].0).Some? && forall j | 0 <= j < |m| :: m[j].0 != env.lookupBPartner(m[i].0).value.id
  }

  lemma SideContents(env: Collaborators, adClientId: int, isSOTrx: bool)
    ensures StreamPricingConditionsInfos(env, adClientId, isSOTrx).Failure? <==> LookupLeavesMap(env, adClientId, isSOTrx)
    ensures StreamPricingConditionsInfos(env, adClientId, isSOTrx).Success? ==>
      forall info :: info in StreamPricingConditionsInfos(env, adClientId, isSOTrx).value <==>
        info.isSOTrx == isSOTrx && Indexed(env, adClientId, info)
  {
    var m := env.retrieveDiscountSchemaIds(adClientId, isSOTrx);
    InfosFromContents(m, m, env.lookupBPartner, isSOTrx);
    forall info ensures ResolvedBy(m, m, env.lookupBPartner, isSOTrx, info) <==> info.isSOTrx == isSOTrx && Indexed(env, adClientId, info) {
      SchemaIdOfFinds(m, info.bpartner.id, info.pricingConditionsId);
    }
    forall v: LookupValue ensures SchemaIdOf(m, v.id).None? <==> forall j | 0 <= j < |m| :: m[j].0 != v.id {
      assert GetPricingConditionsIdByBPartner(v, m) == SchemaIdOf(m, v.id);
    }
  }

  /**
    The index holds exactly the indexed infos of both sides, each once; building it fails exactly
    when a side's lookup yields a partner id its map does not contain.
  */
  lemma IndexContents(env: Collaborators, adClientId: int)
    ensures BuildIndex(env, adClientId).Failure? <==> LookupLeavesMap(env, adClientId, false) || LookupLeavesMap(env, adClientId, true)
    ensures BuildIndex(env, adClientId).Failure? ==> BuildIndex(env, adClientId).error == NullPricingConditionsId
    ensures BuildIndex(env, adClientId).Success? ==>
      NoDuplicates(BuildIndex(env, adClientId).value) &&
      forall info :: info in BuildIndex(env, adClientId).value <==> Indexed(env, adClientId, info)
  {
    SideContents(env, adClientId, false);
    SideContents(env, adClientId, true);
  }

  /** When every lookup returns the partner it was asked for, the index is always built. */
  lemma FaithfulLookupsNeverFail(env: Collaborators, adClientId: int)
    requires forall p :: env.lookupBPartner(p).Some? ==> env.lookupBPartner(p).value.id == p
    ensures BuildIndex(env, adClientId).Success?
  {
    IndexContents(env, adClientId);
    forall isSOTrx: bool ensures !LookupLeavesMap(env, adClientId, isSOTrx) {
      var m := env.retrieveDiscountSchemaIds(adClientId, isSOTrx);
      forall i | 0 <= i < |m| && env.lookupBPartner(m[i].0).Some?
        ensures exists j | 0 <= j < |m| :: m[j].0 == env.lookupBPartner(m[i].0).value.id
      {
        assert m[i].0 == env.lookupBPartner(m[i].0).value.id;
      }
    }
  }

  /** ImmutableSetMultimap.keySet(): the distinct schema ids, in order of first appearance. */
  function KeySet(index: Index): (r: seq<PricingConditionsId>)
    ensures forall k :: k in r <==> exists i | 0 <= i < |index| :: index[i].pricingConditionsId == k
    ensures NoDuplicates(r)
  {
    if index == [] then []
    else
      var init := KeySet(index[..|index| - 1]);
      var k := index[|index| - 1].pricingConditionsId;
      assert forall i | 0 <= i < |index| - 1 :: index[..|index| - 1][i] == index[i];
      if k in init then init else init + [k]
  }

  /** ImmutableSetMultimap.get(id): the entries with that schema id, in order; none for a null id. */
  function InfosFor(index: Index, pricingConditionsId: Option<PricingConditionsId>): (r: seq<PricingConditionsInfo>)
    ensures forall info :: info in r <==> info in index && pricingConditionsId == Some(info.pricingConditionsId)
    ensures NoDuplicates(index) ==> NoDuplicates(r)
  {
    if index == [] then []
    else
      var rest := InfosFor(index[1..], pricingConditionsId);
      assert index == [index[0]] + index[1..];
      assert NoDuplicates(index) ==> NoDuplicates(index[1..]) && index[0] !in index[1..] by {
        if NoDuplicates(index) {
          forall i, j | 0 <= i < j < |index[1..]| ensures index[1..][i] != index[1..][j] {
            assert index[1..][i] == index[i + 1] && index[1..][j] == index[j + 1];
          }
        }
      }
      if pricingConditionsId == Some(index[0].pricingConditionsId) then [index[0]] + rest else rest
  }
}
