/**
  PricingConditionsRowsLoader: the loader object. It holds its collaborators and settings, the
  lazily built index (pricingConditionsInfoById) and the memo table of last-in/out dates
  (lastInOutDates), and its load() computes the row data of RowsPipeline.Load.

  Two ghost fields count the calls the loader makes to its repositories, so that the contracts can
  say when a repository is not asked again.
*/
module RowsLoader {
  import opened Wrappers
  import opened PricingTypes
  import opened RowOrdering
  import opened ConditionsIndex
  import opened LastInOutDates
  import opened RowsPipeline

  class PricingConditionsRowsLoader {
    const env: Collaborators
    const filters: DocumentFiltersList
    const adClientId: int
    const sourceDocumentLine: Option<SourceDocumentLine>

    /** The lazily built index; None until built. */
    var pricingConditionsInfoById: Option<Index>
    /** The memo table of last-in/out dates. */
    var lastInOutDates: Memo

    /** Calls of retrieveAllDiscountSchemaIdsIndexedByBPartnerId so far. */
    ghost var discountSchemaRetrievals: nat
    /** The requests sent to the shipment/receipt repository so far, in order. */
    ghost var inOutRequests: seq<LastInOutDateRequest>

    ghost predicate Valid()
      reads this
    {
      && adClientId > 0
      && (pricingConditionsInfoById.Some? ==> BuildIndex(env, adClientId) == Success(pricingConditionsInfoById.value))
      && MemoConsistent(lastInOutDates, env.lastInOutDate)
      && (forall request | request in lastInOutDates :: request in inOutRequests)
    }

    /** The builder: a positive client id is required; missing filters mean no filters. */
    constructor (env: Collaborators, filters: Option<DocumentFiltersList>, adClientId: int, sourceDocumentLine: Option<SourceDocumentLine>)
      requires adClientId > 0
      ensures Valid()
      ensures this.env == env && this.adClientId == adClientId && this.sourceDocumentLine == sourceDocumentLine
      ensures this.filters == (if filters.Some? then filters.value else EMPTY_FILTERS)
      ensures pricingConditionsInfoById.None? && lastInOutDates == map[]
      ensures discountSchemaRetrievals == 0 && inOutRequests == []
    {
      this.env := env;
      this.filters := if filters.Some? then filters.value else EMPTY_FILTERS;
      this.adClientId := adClientId;
      this.sourceDocumentLine := sourceDocumentLine;
      pricingConditionsInfoById := None;
      lastInOutDates := map[];
      discountSchemaRetrievals := 0;
      inOutRequests := [];
    }

    /**
      getPricingConditionsInfosIndexedById: the index, built (asking the bpartner repository once
      per side) only when it is not built yet; later calls return it without asking again.
    */
    method GetPricingConditionsInfosIndexedById() returns (r: Result<Index, LoadError>)
      requires Valid()
      modifies this`pricingConditionsInfoById, this`discountSchemaRetrievals
      ensures Valid()
      ensures r == BuildIndex(env, adClientId)
      ensures old(pricingConditionsInfoById).Some? ==>
        r == Success(old(pricingConditionsInfoById).value) && pricingConditionsInfoById == old(pricingConditionsInfoById)
      ensures pricingConditionsInfoById == (if r.Success? then Some(r.value) else None)
      ensures discountSchemaRetrievals == old(discountSchemaRetrievals) + (if old(pricingConditionsInfoById).Some? then 0 else 2)
    {
      if pricingConditionsInfoById.None? {
        discountSchemaRetrievals := discountSchemaRetrievals + 2;
        r := BuildIndex(env, adClientId);
        if r.Success? {
          pricingConditionsInfoById := Some(r.value);
        }
      } else {
        r := Success(pricingConditionsInfoById.value);
      }
    }

    /**
      getLastInOutDate: no date for a break without product; otherwise the memoised date of
      (partner, product, direction), asking the repository only on a miss. A failed fetch gives no
      date and is not memoised.
    */
    method GetLastInOutDate(bpartnerId: PartnerId, isSOTrx: bool, pricingConditionsBreak: PricingConditionsBreak) returns (date: Option<Date>)
      requires Valid()
      modifies this`lastInOutDates, this`inOutRequests
      ensures Valid()
      ensures date == LastInOutDateOf(env.lastInOutDate, bpartnerId, isSOTrx, pricingConditionsBreak)
      ensures match RequestOf(bpartnerId, isSOTrx, pricingConditionsBreak)
        case None => lastInOutDates == old(lastInOutDates) && inOutRequests == old(inOutRequests)
        case Some(request) =>
          && lastInOutDates == CachedDate(old(lastInOutDates), env.lastInOutDate, request).1
          && inOutRequests == old(inOutRequests) + (if request in old(lastInOutDates) then [] else [request])
    ensures (lastInOutDates, inOutRequests) ==
      Step((old(lastInOutDates), old(inOutRequests)), env.lastInOutDate, RequestOf(bpartnerId, isSOTrx, pricingConditionsBreak))
    {
      var request := RequestOf(bpartnerId, isSOTrx, pricingConditionsBreak);
      if request.None? {
        return None;
      }
      var key := request.value;
      if key in lastInOutDates {
        date := lastInOutDates[key];
      } else {
        inOutRequests := inOutRequests + [key];
        var fetched := env.lastInOutDate(key);
        if fetched.FetchFailed? {
          date := None;
        } else {
          date := FetchedDate(fetched);
          lastInOutDates := lastInOutDates[key := date];
        }
      }
    }

    /**
      createEditablePricingConditionsRowOrNull: the synthesised row, its date asked for through the
      memo table.
    */
    method CreateEditablePricingConditionsRowOrNull() returns (row: Option<PricingConditionsRow>)
      requires Valid()
      modifies this`lastInOutDates, this`inOutRequests
      ensures Valid()
      ensures row == EditableRowOrNull(env, sourceDocumentLine)
      ensures lastInOutDates == Replay(old(lastInOutDates), env.lastInOutDate, EditableRequests(sourceDocumentLine)).0
      ensures inOutRequests == old(inOutRequests) + Replay(old(lastInOutDates), env.lastInOutDate, EditableRequests(sourceDocumentLine)).1
    {
      if sourceDocumentLine.None? {
        return None;
      }
      var line := sourceDocumentLine.value;
      var date := GetLastInOutDate(line.bpartnerId, line.isSOTrx, SyntheticBreak(line));
      row := Some(CreateEditableRow(env, line, date));
      assert EditableRequests(sourceDocumentLine)[..0] == [];
    }

    /**
      The flatMap(createPricingConditionsRows) stage: one row per joined pair, in stream order, each
      with its date asked for through the memo table.
    */
    method CreatePricingConditionsRows(pairs: seq<Pair>) returns (rows: seq<PricingConditionsRow>)
      requires Valid()
      modifies this`lastInOutDates, this`inOutRequests
      ensures Valid()
      ensures rows == RowsOf(env, pairs)
      ensures lastInOutDates == Replay(old(lastInOutDates), env.lastInOutDate, RowRequests(pairs)).0
      ensures inOutRequests == old(inOutRequests) + Replay(old(lastInOutDates), env.lastInOutDate, RowRequests(pairs)).1
    {
      rows := [];
      for i := 0 to |pairs|
        invariant Valid()
        invariant rows == RowsOf(env, pairs[..i])
        invariant lastInOutDates == Replay(old(lastInOutDates), env.lastInOutDate, RowRequests(pairs[..i])).0
        invariant inOutRequests == old(inOutRequests) + Replay(old(lastInOutDates), env.lastInOutDate, RowRequests(pairs[..i])).1
      {
        var (b, info) := pairs[i];
        ghost var memoBefore, logBefore := lastInOutDates, inOutRequests;
        var date := GetLastInOutDate(info.BPartnerId(), info.isSOTrx, b);
        var row := CreatePricingConditionsRow(b, info, date);
        RowsPrefixStep(env, pairs, i, old(lastInOutDates), old(inOutRequests), rows, memoBefore, logBefore, row, lastInOutDates, inOutRequests);
        rows := rows + [row];
      }
      assert pairs[..|pairs|] == pairs;
    }

    /**
      The editable row once the rows are loaded and sorted: the first current row made editable,
      or else the synthesised one, whose date is asked for through the memo table.
    */
    method ChooseEditableRow(rows: seq<PricingConditionsRow>) returns (editableRow: Option<PricingConditionsRow>)
      requires Valid()
      modifies this`lastInOutDates, this`inOutRequests
      ensures Valid()
      ensures editableRow == EditableRow(env, sourceDocumentLine, rows)
      ensures lastInOutDates == Replay(old(lastInOutDates), env.lastInOutDate, EditableRowRequests(rows, sourceDocumentLine)).0
      ensures inOutRequests == old(inOutRequests) + Replay(old(lastInOutDates), env.lastInOutDate, EditableRowRequests(rows, sourceDocumentLine)).1
    {
      var first := FirstCurrentConditions(rows, sourceDocumentLine);
      if first.Some? {
        editableRow := Some(rows[first.value].CopyAndChangeToEditable());
        assert old(inOutRequests) + [] == old(inOutRequests);
      } else {
        editableRow := CreateEditablePricingConditionsRowOrNull();
      }
    }

    /**
      load() once the index is built: the rows of every break paired with every info of its schema,
      sorted, and the editable row; the row data before filtering, with every date asked for
      through the memo table in stream order.
    */
    method AssembleRowData(index: Index) returns (data: PricingConditionsRowData)
      requires Valid() && BuildIndex(env, adClientId) == Success(index)
      modifies this`lastInOutDates, this`inOutRequests
      ensures Valid()
      ensures Assemble(env, adClientId, sourceDocumentLine) == Success(data)
      ensures lastInOutDates == Replay(old(lastInOutDates), env.lastInOutDate, LoadRequests(env, adClientId, sourceDocumentLine)).0
      ensures inOutRequests == old(inOutRequests) + Replay(old(lastInOutDates), env.lastInOutDate, LoadRequests(env, adClientId, sourceDocumentLine)).1
    {
      var pairs := JoinPairs(env, index);
      var rows := CreatePricingConditionsRows(pairs);
      ghost var memo1, log1 := lastInOutDates, inOutRequests;
      var sorted := SortRows(rows);
      var editableRow := ChooseEditableRow(sorted);
      data := PricingConditionsRowData(editableRow, sorted, OrderLineIdOf(sourceDocumentLine));
      AssembleFromStages(env, adClientId, sourceDocumentLine, pairs, sorted, data,
        old(lastInOutDates), old(inOutRequests), memo1, log1, lastInOutDates, inOutRequests);
    }

    /**
      load(): the row data of RowsPipeline.Load. The bpartner repository is asked only if the index
      was not built yet; the memo table ends as the load's date requests leave it, gaining exactly
      their succeeding keys, and the shipment/receipt repository is asked only on misses and at most
      once for every key whose fetch succeeds.
    */
    method Load() returns (r: Result<PricingConditionsRowData, LoadError>)
      requires Valid()
      modifies this
      ensures Valid()
      ensures r == RowsPipeline.Load(env, adClientId, sourceDocumentLine, filters)
      ensures pricingConditionsInfoById == (if BuildIndex(env, adClientId).Success? then Some(BuildIndex(env, adClientId).value) else None)
      ensures discountSchemaRetrievals == old(discountSchemaRetrievals) + (if old(pricingConditionsInfoById).Some? then 0 else 2)
      ensures lastInOutDates == Replay(old(lastInOutDates), env.lastInOutDate, LoadRequests(env, adClientId, sourceDocumentLine)).0
      ensures inOutRequests == old(inOutRequests) + Replay(old(lastInOutDates), env.lastInOutDate, LoadRequests(env, adClientId, sourceDocumentLine)).1
      ensures lastInOutDates.Keys == old(lastInOutDates).Keys + Succeeding(env.lastInOutDate, LoadRequests(env, adClientId, sourceDocumentLine))
      ensures AsksOncePerKey(old(lastInOutDates), env.lastInOutDate, inOutRequests[|old(inOutRequests)|..])
    {
      ReplayContents(old(lastInOutDates), env.lastInOutDate, LoadRequests(env, adClientId, sourceDocumentLine));
      var built := GetPricingConditionsInfosIndexedById();
      if built.Failure? {
        LoadWithoutIndex(env, adClientId, sourceDocumentLine, filters);
        return Failure(built.error);
      }
      var data := AssembleRowData(built.value);
      r := Success(env.filterRowData(data, filters));
    }
  }

  /**
    One step of CreatePricingConditionsRows: the row of pair i, its date asked for through the memo
    table, extends the rows and the replay of the first i pairs to the first i + 1.
  */
  lemma RowsPrefixStep(
    env: Collaborators, pairs: seq<Pair>, i: nat, memo0: Memo, log0: seq<LastInOutDateRequest>,
    rows: seq<PricingConditionsRow>, memo: Memo, log: seq<LastInOutDateRequest>,
    row: PricingConditionsRow, memo1: Memo, log1: seq<LastInOutDateRequest>)
    requires i < |pairs|
    requires rows == RowsOf(env, pairs[..i])
    requires memo == Replay(memo0, env.lastInOutDate, RowRequests(pairs[..i])).0
    requires log == log0 + Replay(memo0, env.lastInOutDate, RowRequests(pairs[..i])).1
    requires row == CreatePricingConditionsRow(pairs[i].0, pairs[i].1, LastInOutDateOf(env.lastInOutDate, pairs[i].1.BPartnerId(), pairs[i].1.isSOTrx, pairs[i].0))
    requires (memo1, log1) == Step((memo, log), env.lastInOutDate, RequestOf(pairs[i].1.BPartnerId(), pairs[i].1.isSOTrx, pairs[i].0))
    ensures rows + [row] == RowsOf(env, pairs[..i + 1])
    ensures memo1 == Replay(memo0, env.lastInOutDate, RowRequests(pairs[..i + 1])).0
    ensures log1 == log0 + Replay(memo0, env.lastInOutDate, RowRequests(pairs[..i + 1])).1
  {
    var request := RequestOf(pairs[i].1.BPartnerId(), pairs[i].1.isSOTrx, pairs[i].0);
    assert RowsOf(env, pairs[..i + 1]) == RowsOf(env, pairs[..i]) + [RowOf(env, pairs[i])];
    assert RowRequests(pairs[..i + 1]) == RowRequests(pairs[..i]) + [request];
    ReplaySnoc(memo0, env.lastInOutDate, RowRequests(pairs[..i]), request);
    var asked := Replay(memo0, env.lastInOutDate, RowRequests(pairs[..i])).1;
    if request.Some? {
      var extra := if request.value in memo then [] else [request.value];
      assert (log0 + asked) + extra == log0 + (asked + extra);
    }
  }

  /**
    The stages of AssembleRowData put together: the joined rows' requests replayed, then the
    editable row's, are the load's requests replayed, and the pieces make up Assemble's row data.
  */
  lemma AssembleFromStages(
    env: Collaborators, adClientId: int, sourceDocumentLine: Option<SourceDocumentLine>,
    pairs: seq<Pair>, sorted: seq<PricingConditionsRow>, data: PricingConditionsRowData,
    memo0: Memo, log0: seq<LastInOutDateRequest>, memo1: Memo, log1: seq<LastInOutDateRequest>,
    memo2: Memo, log2: seq<LastInOutDateRequest>)
    requires BuildIndex(env, adClientId).Success? && pairs == JoinPairs(env, BuildIndex(env, adClientId).value)
    requires sorted == SortRows(RowsOf(env, pairs))
    requires data == PricingConditionsRowData(EditableRow(env, sourceDocumentLine, sorted), sorted, OrderLineIdOf(sourceDocumentLine))
    requires memo1 == Replay(memo0, env.lastInOutDate, RowRequests(pairs)).0
    requires log1 == log0 + Replay(memo0, env.lastInOutDate, RowRequests(pairs)).1
    requires memo2 == Replay(memo1, env.lastInOutDate, EditableRowRequests(sorted, sourceDocumentLine)).0
    requires log2 == log1 + Replay(memo1, env.lastInOutDate, EditableRowRequests(sorted, sourceDocumentLine)).1
    ensures Assemble(env, adClientId, sourceDocumentLine) == Success(data)
    ensures memo2 == Replay(memo0, env.lastInOutDate, LoadRequests(env, adClientId, sourceDocumentLine)).0
    ensures log2 == log0 + Replay(memo0, env.lastInOutDate, LoadRequests(env, adClientId, sourceDocumentLine)).1
  {
    LoadStages(env, adClientId, sourceDocumentLine);
    ReplayInSequence(env.lastInOutDate, RowRequests(pairs), EditableRowRequests(sorted, sourceDocumentLine),
      memo0, log0, memo1, log1, memo2, log2);
  }

  /**
    Loading twice gives the same row data, and the second load asks the bpartner repository
    nothing: the index is built at most once per loader.
  */
  method LoadTwice(loader: PricingConditionsRowsLoader) returns (first: Result<PricingConditionsRowData, LoadError>, second: Result<PricingConditionsRowData, LoadError>)
    requires loader.Valid()
    modifies loader
    ensures first == second
    ensures first.Success? ==> loader.discountSchemaRetrievals <= old(loader.discountSchemaRetrievals) + 2
  {
    first := loader.Load();
    ghost var retrievals := loader.discountSchemaRetrievals;
    second := loader.Load();
    if first.Success? {
      IndexContents(loader.env, loader.adClientId);
      assert loader.discountSchemaRetrievals == retrievals;
    }
  }
}
