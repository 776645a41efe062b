/**
  The pure part of PricingConditionsRowsLoader.load(): expand every schema of the index into its
  breaks, pair each break with the infos of its schema, sort the rows, choose or synthesise the
  editable row, and hand the result to the view filter.

  Each row's last-in/out date is given here as the shipment/receipt repository would answer
  directly (LastInOutDateOf); the loader class gets the same dates through its memo table.
*/
module RowsPipeline {
  import opened Wrappers
  import opened PricingTypes
  import opened RowOrdering
  import opened ConditionsIndex
  import opened LastInOutDates

  /** filter(Predicates.notNull()) on a stream of breaks. */
  function NonNullBreaks(breaks: seq<Option<PricingConditionsBreak>>): (r: seq<PricingConditionsBreak>)
    ensures forall b :: b in r <==> Some(b) in breaks
    ensures forall b :: multiset(r)[b] == multiset(breaks)[Some(b)]
    ensures |r| == |breaks| - multiset(breaks)[None]
  {
    if breaks == [] then []
    else
      assert breaks == [breaks[0]] + breaks[1..];
      (if breaks[0].Some? then [breaks[0].value] else []) + NonNullBreaks(breaks[1..])
  }

  /** streamMatchingSchemaBreaks(id) with the nulls dropped. */
  function SchemaBreaks(env: Collaborators, pricingConditionsId: PricingConditionsId): (r: seq<PricingConditionsBreak>)
    ensures forall b :: multiset(r)[b] == multiset(env.extractBreaks(env.pricingConditionsById(pricingConditionsId)))[Some(b)]
  {
    NonNullBreaks(env.extractBreaks(env.pricingConditionsById(pricingConditionsId)))
  }

  type Pair = (PricingConditionsBreak, PricingConditionsInfo)

  /** createPricingConditionsRows(break): the break with each info of its own schema id. */
  function PairsForBreak(index: Index, b: PricingConditionsBreak): (r: seq<Pair>)
    ensures forall p :: p in r <==> p.0 == b && p.1 in index && b.pricingConditionsId == Some(p.1.pricingConditionsId)
  {
    var infos := InfosFor(index, b.pricingConditionsId);
    var r := seq(|infos|, i requires 0 <= i < |infos| => (b, infos[i]));
    assert forall p :: p in r <==> p.0 == b && p.1 in infos by {
      forall p: Pair | p.0 == b && p.1 in infos ensures p in r {
        var i :| 0 <= i < |infos| && infos[i] == p.1;
        assert r[i] == p;
      }
    }
    r
  }

  function PairsForBreaks(index: Index, breaks: seq<PricingConditionsBreak>): seq<Pair> {
    if breaks == [] then [] else PairsForBreak(index, breaks[0]) + PairsForBreaks(index, breaks[1..])
  }

  function PairsForKeys(env: Collaborators, index: Index, keys: seq<PricingConditionsId>): seq<Pair> {
    if keys == [] then [] else PairsForBreaks(index, SchemaBreaks(env, keys[0])) + PairsForKeys(env, index, keys[1..])
  }

  /** The (break, info) pairs of load()'s stream, in stream order, before sorting. */
  function JoinPairs(env: Collaborators, index: Index): seq<Pair> {
    PairsForKeys(env, index, KeySet(index))
  }

  lemma {:induction false} PairsForBreaksMembers(index: Index, breaks: seq<PricingConditionsBreak>, p: Pair)
    ensures p in PairsForBreaks(index, breaks) <==>
      p.0 in breaks && p.1 in index && p.0.pricingConditionsId == Some(p.1.pricingConditionsId)
  {
    if breaks != [] {
      PairsForBreaksMembers(index, breaks[1..], p);
      assert breaks == [breaks[0]] + breaks[1..];
    }
  }

  lemma {:induction false} PairsForKeysMembers(env: Collaborators, index: Index, keys: seq<PricingConditionsId>, p: Pair)
    ensures p in PairsForKeys(env, index, keys) <==>
      (exists i | 0 <= i < |keys| :: p.0 in SchemaBreaks(env, keys[i])) &&
      p.1 in index && p.0.pricingConditionsId == Some(p.1.pricingConditionsId)
  {
    if keys != [] {
      PairsForKeysMembers(env, index, keys[1..], p);
      PairsForBreaksMembers(index, SchemaBreaks(env, keys[0]), p);
      assert forall i | 0 <= i < |keys[1..]| :: keys[1..][i] == keys[i + 1];
      if exists i | 0 <= i < |keys| :: p.0 in SchemaBreaks(env, keys[i]) {
        var i :| 0 <= i < |keys| && p.0 in SchemaBreaks(env, keys[i]);
        if i > 0 {
          assert p.0 in SchemaBreaks(env, keys[1..][i - 1]);
        }
      }
    }
  }

  /**
    The cross join: a (break, info) pair is produced exactly when the break is a non-null break of
    some schema of the index and the info is an indexed info of the break's own schema id.
  */
  lemma JoinPairsMembers(env: Collaborators, index: Index, p: Pair)
    ensures p in JoinPairs(env, index) <==>
      (exists k :: k in KeySet(index) && Some(p.0) in env.extractBreaks(env.pricingConditionsById(k))) &&
      p.1 in index && p.0.pricingConditionsId == Some(p.1.pricingConditionsId)
  {
    var keys := KeySet(index);
    PairsForKeysMembers(env, index, keys, p);
    if exists k :: k in keys && Some(p.0) in env.extractBreaks(env.pricingConditionsById(k)) {
      var k :| k in keys && Some(p.0) in env.extractBreaks(env.pricingConditionsById(k));
      var i :| 0 <= i < |keys| && keys[i] == k;
      assert p.0 in SchemaBreaks(env, keys[i]);
    }
  }

  /** The number of rows of one break: the number of infos of its schema id. */
  function BreakRowCount(index: Index, breaks: seq<PricingConditionsBreak>): nat {
    if breaks == [] then 0 else |InfosFor(index, breaks[0].pricingConditionsId)| + BreakRowCount(index, breaks[1..])
  }

  function KeyRowCount(env: Collaborators, index: Index, keys: seq<PricingConditionsId>): nat {
    if keys == [] then 0 else BreakRowCount(index, SchemaBreaks(env, keys[0])) + KeyRowCount(env, index, keys[1..])
  }

  lemma {:induction false} PairsForKeysCount(env: Collaborators, index: Index, keys: seq<PricingConditionsId>)
    ensures |PairsForKeys(env, index, keys)| == KeyRowCount(env, index, keys)
  {
    if keys != [] {
      PairsForKeysCount(env, index, keys[1..]);
      PairsForBreaksCount(index, SchemaBreaks(env, keys[0]));
    }
  }

  lemma {:induction false} PairsForBreaksCount(index: Index, breaks: seq<PricingConditionsBreak>)
    ensures |PairsForBreaks(index, breaks)| == BreakRowCount(index, breaks)
  {
    if breaks != [] {
      PairsForBreaksCount(index, breaks[1..]);
    }
  }

  /** createPricingConditionsRow: a non-editable row of the info's partner and direction. */
  function CreatePricingConditionsRow(b: PricingConditionsBreak, info: PricingConditionsInfo, dateLastInOut: Option<Date>): PricingConditionsRow {
    PricingConditionsRow(
      bpartner := Some(info.bpartner),
      customer := info.isSOTrx,
      editable := false,
      pricingConditionsId := Some(info.pricingConditionsId),
      pricingConditionsBreak := b,
      dateLastInOut := dateLastInOut)
  }

  /** The row of one pair, with the date the repository gives for its partner, product and direction. */
  function RowOf(env: Collaborators, p: Pair): PricingConditionsRow {
    CreatePricingConditionsRow(p.0, p.1, LastInOutDateOf(env.lastInOutDate, p.1.BPartnerId(), p.1.isSOTrx, p.0))
  }

  /** The rows of the pairs, in stream order. */
  function RowsOf(env: Collaborators, pairs: seq<Pair>): seq<PricingConditionsRow> {
    seq(|pairs|, i requires 0 <= i < |pairs| => RowOf(env, pairs[i]))
  }

  /** isCurrentConditions: whether a row is the one the source document line already uses. */
  predicate IsCurrentConditions(sourceDocumentLine: Option<SourceDocumentLine>, row: PricingConditionsRow) {
    match sourceDocumentLine
    case None => false
    case Some(line) =>
      if line.pricingConditionsBreakId.Some? then row.pricingConditionsBreak.id == line.pricingConditionsBreakId
      else row.BPartnerId() == Some(line.bpartnerId) && (if line.isSOTrx then row.customer else row.IsVendor())
  }

  /** rows.stream().filter(isCurrentConditions).findFirst(), as an index. */
  function FirstCurrentConditions(rows: seq<PricingConditionsRow>, sourceDocumentLine: Option<SourceDocumentLine>): (r: Option<nat>)
    ensures r.Some? ==> r.value < |rows| && IsCurrentConditions(sourceDocumentLine, rows[r.value])
    ensures r.Some? ==> forall j | 0 <= j < r.value :: !IsCurrentConditions(sourceDocumentLine, rows[j])
    ensures r.None? <==> forall j | 0 <= j < |rows| :: !IsCurrentConditions(sourceDocumentLine, rows[j])
  {
    if rows == [] then None
    else if IsCurrentConditions(sourceDocumentLine, rows[0]) then Some(0)
    else
      match FirstCurrentConditions(rows[1..], sourceDocumentLine)
      case None =>
        assert forall j | 1 <= j < |rows| :: rows[j] == rows[1..][j - 1];
        None
      case Some(i) =>
        assert forall j | 1 <= j < |rows| :: rows[j] == rows[1..][j - 1];
        Some(i + 1)
  }

  /** The break synthesised from the source line: no id, no date, break value 0, the line's price terms. */
  function SyntheticBreak(line: SourceDocumentLine): PricingConditionsBreak {
    PricingConditionsBreak(
      id := None,
      pricingConditionsId := None,
      matchCriteria := MatchCriteria(0, line.productId, line.productCategoryId),
      priceOverride := FixedPrice(line.priceEntered),
      paymentTermId := line.paymentTermId,
      discount := line.discount,
      dateCreated := None)
  }

  /** The editable row synthesised from the source line, given its last-in/out date. */
  function CreateEditableRow(env: Collaborators, line: SourceDocumentLine, dateLastInOut: Option<Date>): PricingConditionsRow {
    PricingConditionsRow(
      bpartner := env.lookupBPartner(line.bpartnerId),
      customer := line.isSOTrx,
      editable := true,
      pricingConditionsId := OfDiscountSchemaIdOrNull(env.discountSchemaIdOf(line.bpartnerId, line.isSOTrx)),
      pricingConditionsBreak := SyntheticBreak(line),
      dateLastInOut := dateLastInOut)
  }

  /** createEditablePricingConditionsRowOrNull. */
  function EditableRowOrNull(env: Collaborators, sourceDocumentLine: Option<SourceDocumentLine>): (r: Option<PricingConditionsRow>)
    ensures r.Some? <==> sourceDocumentLine.Some?
    ensures r.Some? ==> r.value.editable && r.value.pricingConditionsBreak.id.None?
  {
    match sourceDocumentLine
    case None => None
    case Some(line) =>
      Some(CreateEditableRow(env, line, LastInOutDateOf(env.lastInOutDate, line.bpartnerId, line.isSOTrx, SyntheticBreak(line))))
  }

  /** The first current row made editable, or else a synthesised one. */
  function EditableRow(env: Collaborators, sourceDocumentLine: Option<SourceDocumentLine>, rows: seq<PricingConditionsRow>): (r: Option<PricingConditionsRow>)
    ensures r.Some? <==> sourceDocumentLine.Some?
    ensures r.Some? ==> r.value.editable
    ensures (exists j | 0 <= j < |rows| :: IsCurrentConditions(sourceDocumentLine, rows[j])) ==>
      exists j | 0 <= j < |rows| :: r == Some(rows[j].(editable := true))
  {
    match FirstCurrentConditions(rows, sourceDocumentLine)
    case Some(i) => Some(rows[i].CopyAndChangeToEditable())
    case None => EditableRowOrNull(env, sourceDocumentLine)
  }

  function OrderLineIdOf(sourceDocumentLine: Option<SourceDocumentLine>): Option<OrderLineId> {
    match sourceDocumentLine
    case None => None
    case Some(line) => line.orderLineId
  }

  /** The row data load() builds before filtering. */
  function Assemble(env: Collaborators, adClientId: int, sourceDocumentLine: Option<SourceDocumentLine>): (r: Result<PricingConditionsRowData, LoadError>)
    ensures r.Success? <==> BuildIndex(env, adClientId).Success?
    ensures r.Success? ==> r.value.orderLineId == OrderLineIdOf(sourceDocumentLine) && (r.value.editableRow.Some? <==> sourceDocumentLine.Some?)
  {
    var index :- BuildIndex(env, adClientId);
    var rows := SortRows(RowsOf(env, JoinPairs(env, index)));
    Success(PricingConditionsRowData(EditableRow(env, sourceDocumentLine, rows), rows, OrderLineIdOf(sourceDocumentLine)))
  }

  /** load(): the assembled row data, filtered by the view filters. */
  function Load(env: Collaborators, adClientId: int, sourceDocumentLine: Option<SourceDocumentLine>, filters: DocumentFiltersList): Result<PricingConditionsRowData, LoadError> {
    var data :- Assemble(env, adClientId, sourceDocumentLine);
    Success(env.filterRowData(data, filters))
  }

  // ---------------------------------------------------------------------------------------------
  // What load() promises

  /**
    The rows are the cross join, sorted: sorted by ROWS_SORTING, a permutation of the joined rows in
    stream order (so there are as many as the breaks' schemas have infos), every one non-editable,
    of an info's partner and direction, with the info's schema id equal to its break's.
  */
  lemma LoadedRows(env: Collaborators, adClientId: int, sourceDocumentLine: Option<SourceDocumentLine>)
    requires BuildIndex(env, adClientId).Success?
    ensures var index := BuildIndex(env, adClientId).value;
      var rows := Assemble(env, adClientId, sourceDocumentLine).value.rows;
      && Sorted(rows)
      && multiset(rows) == multiset(RowsOf(env, JoinPairs(env, index)))
      && |rows| == KeyRowCount(env, index, KeySet(index))
      && forall r | r in rows ::
        && !r.editable
        && r.bpartner.Some? && r.pricingConditionsId.Some?
        && r.pricingConditionsBreak.pricingConditionsId == r.pricingConditionsId
        && PricingConditionsInfo(r.pricingConditionsId.value, r.bpartner.value, r.customer) in index
        && r.dateLastInOut == LastInOutDateOf(env.lastInOutDate, r.bpartner.value.id, r.customer, r.pricingConditionsBreak)
  {
    var index := BuildIndex(env, adClientId).value;
    var joined := RowsOf(env, JoinPairs(env, index));
    var rows := SortRows(joined);
    SortRowsSorted(joined);
    PairsForKeysCount(env, index, KeySet(index));
    assert |rows| == |joined| by {
      assert |multiset(rows)| == |multiset(joined)|;
    }
    forall r | r in rows
      ensures !r.editable && r.bpartner.Some? && r.pricingConditionsId.Some?
      ensures r.pricingConditionsBreak.pricingConditionsId == r.pricingConditionsId
      ensures PricingConditionsInfo(r.pricingConditionsId.value, r.bpartner.value, r.customer) in index
      ensures r.dateLastInOut == LastInOutDateOf(env.lastInOutDate, r.bpartner.value.id, r.customer, r.pricingConditionsBreak)
    {
      assert r in multiset(joined);
      var i :| 0 <= i < |joined| && joined[i] == r;
      var p := JoinPairs(env, index)[i];
      JoinPairsMembers(env, index, p);
    }
  }

  /** No source line, no editable row; with a source line there is always one. */
  lemma EditableRowPresence(env: Collaborators, adClientId: int, sourceDocumentLine: Option<SourceDocumentLine>)
    requires Assemble(env, adClientId, sourceDocumentLine).Success?
    ensures Assemble(env, adClientId, sourceDocumentLine).value.editableRow.Some? <==> sourceDocumentLine.Some?
  {
  }

  /**
    When some sorted row matches the source line, the editable row is an editable copy of the FIRST
    matching row, and nothing is synthesised.
  */
  lemma EditableRowIsFirstMatch(env: Collaborators, adClientId: int, sourceDocumentLine: Option<SourceDocumentLine>, i: nat)
    requires Assemble(env, adClientId, sourceDocumentLine).Success?
    requires var rows := Assemble(env, adClientId, sourceDocumentLine).value.rows;
      i < |rows| && IsCurrentConditions(sourceDocumentLine, rows[i]) &&
      forall j | 0 <= j < i :: !IsCurrentConditions(sourceDocumentLine, rows[j])
    ensures var data := Assemble(env, adClientId, sourceDocumentLine).value;
      data.editableRow == Some(data.rows[i].(editable := true))
  {
    var rows := Assemble(env, adClientId, sourceDocumentLine).value.rows;
    var first := FirstCurrentConditions(rows, sourceDocumentLine);
    assert first.Some?;
    assert first.value == i by {
      if first.value < i {
      } else if first.value > i {
      }
    }
  }

  /** When no row matches, the editable row is the one synthesised from the source line (if any). */
  lemma EditableRowSynthesisedWithoutMatch(env: Collaborators, adClientId: int, sourceDocumentLine: Option<SourceDocumentLine>)
    requires Assemble(env, adClientId, sourceDocumentLine).Success?
    requires var rows := Assemble(env, adClientId, sourceDocumentLine).value.rows;
      forall j | 0 <= j < |rows| :: !IsCurrentConditions(sourceDocumentLine, rows[j])
    ensures var data := Assemble(env, adClientId, sourceDocumentLine).value;
      data.editableRow == EditableRowOrNull(env, sourceDocumentLine)
  {
  }

  /**
    The synthesised editable row: editable, of the line's direction and partner lookup, its schema
    id from the direct partner-to-schema lookup (absent for a non-positive id); its break has no id,
    no schema id and no creation date, break value 0, the line's product and category, the entered
    price as fixed price, and the line's discount and payment term.
  */
  lemma SynthesisedRow(env: Collaborators, line: SourceDocumentLine)
    ensures var row := EditableRowOrNull(env, Some(line)).value;
      var b := row.pricingConditionsBreak;
      && row.editable && row.customer == line.isSOTrx
      && row.bpartner == env.lookupBPartner(line.bpartnerId)
      && (row.pricingConditionsId.Some? <==> env.discountSchemaIdOf(line.bpartnerId, line.isSOTrx) > 0)
      && (row.pricingConditionsId.Some? ==> row.pricingConditionsId.value == env.discountSchemaIdOf(line.bpartnerId, line.isSOTrx))
      && b.id.None? && b.pricingConditionsId.None? && b.dateCreated.None?
      && b.matchCriteria == MatchCriteria(0, line.productId, line.productCategoryId)
      && b.priceOverride == FixedPrice(line.priceEntered)
      && b.discount == line.discount && b.paymentTermId == line.paymentTermId
      && row.dateLastInOut == LastInOutDateOf(env.lastInOutDate, line.bpartnerId, line.isSOTrx, b)
  {
  }

  /**
    The editable row is the source line's current conditions exactly when some loaded row is, or,
    when it was synthesised, when the line names no break and the partner lookup returns that
    partner: a synthesised break has no id, so it never matches a line that names one.
  */
  lemma EditableRowIsCurrentConditions(env: Collaborators, adClientId: int, line: SourceDocumentLine)
    requires Assemble(env, adClientId, Some(line)).Success?
    ensures var data := Assemble(env, adClientId, Some(line)).value;
      IsCurrentConditions(Some(line), data.editableRow.value) <==>
        (exists j | 0 <= j < |data.rows| :: IsCurrentConditions(Some(line), data.rows[j])) ||
        (line.pricingConditionsBreakId.None? && env.lookupBPartner(line.bpartnerId).Some? &&
          env.lookupBPartner(line.bpartnerId).value.id == line.bpartnerId)
  {
    var data := Assemble(env, adClientId, Some(line)).value;
    var first := FirstCurrentConditions(data.rows, Some(line));
    if first.None? {
      assert !exists j | 0 <= j < |data.rows| :: IsCurrentConditions(Some(line), data.rows[j]);
    }
  }

  /** The line's break id decides alone: the editable copy then carries exactly that break id. */
  lemma EditableRowByBreakId(env: Collaborators, adClientId: int, line: SourceDocumentLine, i: nat)
    requires Assemble(env, adClientId, Some(line)).Success?
    requires line.pricingConditionsBreakId.Some?
    requires var rows := Assemble(env, adClientId, Some(line)).value.rows;
      i < |rows| && rows[i].pricingConditionsBreak.id == line.pricingConditionsBreakId
    ensures var data := Assemble(env, adClientId, Some(line)).value;
      data.editableRow.value.editable &&
      data.editableRow.value.pricingConditionsBreak.id == line.pricingConditionsBreakId &&
      data.editableRow.value.(editable := false) in data.rows
  {
    var rows := Assemble(env, adClientId, Some(line)).value.rows;
    assert IsCurrentConditions(Some(line), rows[i]);
    var first := FirstCurrentConditions(rows, Some(line));
    assert rows[first.value].(editable := true).(editable := false) == rows[first.value] by {
      LoadedRows(env, adClientId, Some(line));
      assert rows[first.value] in rows;
    }
  }

  /** load() fails exactly when building the index fails; otherwise it filters the assembled data. */
  lemma LoadOutcome(env: Collaborators, adClientId: int, sourceDocumentLine: Option<SourceDocumentLine>, filters: DocumentFiltersList)
    ensures Load(env, adClientId, sourceDocumentLine, filters).Failure? <==>
      LookupLeavesMap(env, adClientId, false) || LookupLeavesMap(env, adClientId, true)
    ensures Load(env, adClientId, sourceDocumentLine, filters).Success? ==>
      Load(env, adClientId, sourceDocumentLine, filters).value ==
        env.filterRowData(Assemble(env, adClientId, sourceDocumentLine).value, filters)
  {
    IndexContents(env, adClientId);
  }

  // ---------------------------------------------------------------------------------------------
  // The getLastInOutDate calls of one load

  /**
    The memo key of each joined pair's row, in stream order: none for a break without product,
    otherwise the info's partner, the break's product and the info's direction.
  */
  function RowRequests(pairs: seq<Pair>): (r: seq<Option<LastInOutDateRequest>>)
    ensures |r| == |pairs|
    ensures forall i | 0 <= i < |pairs| :: r[i].Some? <==> pairs[i].0.matchCriteria.productId.Some?
    ensures forall i | 0 <= i < |pairs| && r[i].Some? ::
      r[i].value == LastInOutDateRequest(pairs[i].1.BPartnerId(), pairs[i].0.matchCriteria.productId.value, pairs[i].1.isSOTrx)
  {
    seq(|pairs|, i requires 0 <= i < |pairs| => RequestOf(pairs[i].1.BPartnerId(), pairs[i].1.isSOTrx, pairs[i].0))
  }

  /**
    The memo request of the synthesised editable row: one entry per source line, no key when the
    line has no product, otherwise the line's partner, product and direction.
  */
  function EditableRequests(sourceDocumentLine: Option<SourceDocumentLine>): (r: seq<Option<LastInOutDateRequest>>)
    ensures |r| <= 1 && (|r| == 1 <==> sourceDocumentLine.Some?)
    ensures |r| == 1 ==> (r[0].Some? <==> sourceDocumentLine.value.productId.Some?)
    ensures |r| == 1 && r[0].Some? ==>
      r[0].value == LastInOutDateRequest(sourceDocumentLine.value.bpartnerId, sourceDocumentLine.value.productId.value, sourceDocumentLine.value.isSOTrx)
  {
    match sourceDocumentLine
    case None => []
    case Some(line) => [RequestOf(line.bpartnerId, line.isSOTrx, SyntheticBreak(line))]
  }

  /**
    The memo keys the editable row asks for once `rows` are loaded: none when a loaded row matches
    the source line, otherwise the synthesised row's.
  */
  function EditableRowRequests(rows: seq<PricingConditionsRow>, sourceDocumentLine: Option<SourceDocumentLine>): (r: seq<Option<LastInOutDateRequest>>)
    ensures |r| <= 1
    ensures |r| == 1 <==> sourceDocumentLine.Some? && forall j | 0 <= j < |rows| :: !IsCurrentConditions(sourceDocumentLine, rows[j])
    ensures |r| == 1 ==> r == EditableRequests(sourceDocumentLine)
  {
    if FirstCurrentConditions(rows, sourceDocumentLine).Some? then [] else EditableRequests(sourceDocumentLine)
  }

  /**
    The memo keys load() asks for, in order: none if the index cannot be built; otherwise one per
    joined row, then the synthesised row's when no loaded row matches the source line.
  */
  function LoadRequests(env: Collaborators, adClientId: int, sourceDocumentLine: Option<SourceDocumentLine>): seq<Option<LastInOutDateRequest>> {
    match BuildIndex(env, adClientId)
    case Failure(_) => []
    case Success(index) =>
      var pairs := JoinPairs(env, index);
      RowRequests(pairs) + EditableRowRequests(SortRows(RowsOf(env, pairs)), sourceDocumentLine)
  }

  /** When the index cannot be built, load() fails with its error and asks for no dates. */
  lemma LoadWithoutIndex(env: Collaborators, adClientId: int, sourceDocumentLine: Option<SourceDocumentLine>, filters: DocumentFiltersList)
    requires BuildIndex(env, adClientId).Failure?
    ensures Load(env, adClientId, sourceDocumentLine, filters) == Failure(BuildIndex(env, adClientId).error)
    ensures LoadRequests(env, adClientId, sourceDocumentLine) == []
  {
  }

  /** load() and its date requests, once the index is built, stage by stage. */
  lemma LoadStages(env: Collaborators, adClientId: int, sourceDocumentLine: Option<SourceDocumentLine>)
    requires BuildIndex(env, adClientId).Success?
    ensures var pairs := JoinPairs(env, BuildIndex(env, adClientId).value);
      var rows := SortRows(RowsOf(env, pairs));
      && Assemble(env, adClientId, sourceDocumentLine) ==
        Success(PricingConditionsRowData(EditableRow(env, sourceDocumentLine, rows), rows, OrderLineIdOf(sourceDocumentLine)))
      && LoadRequests(env, adClientId, sourceDocumentLine) ==
        RowRequests(pairs) + EditableRowRequests(rows, sourceDocumentLine)
  {
  }

  /**
    load() as written, from memo table `memo`: the same row data, except that the first failing
    fetch of an unmemoised key escapes the catch clause and aborts the load.
  */
  function LoadAsWritten(
    env: Collaborators, adClientId: int, sourceDocumentLine: Option<SourceDocumentLine>,
    filters: DocumentFiltersList, memo: Memo): Result<PricingConditionsRowData, LoadError>
  {
    var data :- Load(env, adClientId, sourceDocumentLine, filters);
    var memoAfter :- ReplayAsWritten(memo, env.lastInOutDate, LoadRequests(env, adClientId, sourceDocumentLine));
    Success(data)
  }

  /**
    The load as written fails exactly when the intended load fails or one of its date requests
    meets a failing repository; otherwise the two agree.
  */
  lemma LoadAsWrittenOutcome(
    env: Collaborators, adClientId: int, sourceDocumentLine: Option<SourceDocumentLine>,
    filters: DocumentFiltersList, memo: Memo)
    requires MemoConsistent(memo, env.lastInOutDate)
    ensures var requests := LoadRequests(env, adClientId, sourceDocumentLine);
      LoadAsWritten(env, adClientId, sourceDocumentLine, filters, memo).Failure? <==>
        Load(env, adClientId, sourceDocumentLine, filters).Failure? ||
        exists i | 0 <= i < |requests| :: requests[i].Some? && env.lastInOutDate(requests[i].value).FetchFailed?
    ensures LoadAsWritten(env, adClientId, sourceDocumentLine, filters, memo).Success? ==>
      LoadAsWritten(env, adClientId, sourceDocumentLine, filters, memo) == Load(env, adClientId, sourceDocumentLine, filters)
  {
    ReplayAsWrittenOutcome(memo, env.lastInOutDate, LoadRequests(env, adClientId, sourceDocumentLine));
  }

  /** A loaded row whose break names a product has a memo key among the joined rows' requests. */
  lemma SortedRowRequest(env: Collaborators, index: Index, row: PricingConditionsRow) returns (i: nat)
    requires row in SortRows(RowsOf(env, JoinPairs(env, index)))
    requires row.pricingConditionsBreak.matchCriteria.productId.Some?
    ensures i < |JoinPairs(env, index)| && RowRequests(JoinPairs(env, index))[i].Some?
  {
    var pairs := JoinPairs(env, index);
    var joined := RowsOf(env, pairs);
    assert row in multiset(SortRows(joined));
    i :| 0 <= i < |joined| && joined[i] == row;
    assert pairs[i].0 == row.pricingConditionsBreak;
  }

  /**
    The headline effect: with a repository that throws for every request, a fresh loader whose rows
    include one whose break names a product fails as written, where the intended load succeeds.
  */
  lemma AsWrittenLoadAbortsOnThrowingRepository(
    env: Collaborators, adClientId: int, sourceDocumentLine: Option<SourceDocumentLine>, filters: DocumentFiltersList, row: PricingConditionsRow)
    requires forall request :: env.lastInOutDate(request).FetchFailed?
    requires Assemble(env, adClientId, sourceDocumentLine).Success?
    requires row in Assemble(env, adClientId, sourceDocumentLine).value.rows
    requires row.pricingConditionsBreak.matchCriteria.productId.Some?
    ensures Load(env, adClientId, sourceDocumentLine, filters).Success?
    ensures LoadAsWritten(env, adClientId, sourceDocumentLine, filters, map[]) == Failure(LastInOutDateFetchFailed)
  {
    var index := BuildIndex(env, adClientId).value;
    var i := SortedRowRequest(env, index, row);
    var requests := LoadRequests(env, adClientId, sourceDocumentLine);
    var rowRequests := RowRequests(JoinPairs(env, index));
    assert requests == rowRequests + requests[|rowRequests|..];
    assert requests[i] == rowRequests[i];
    LoadAsWrittenOutcome(env, adClientId, sourceDocumentLine, filters, map[]);
  }
}
