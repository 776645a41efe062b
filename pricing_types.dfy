/**
  The values the pricing-conditions rows loader works with, and the collaborators it calls.

  Repository ids (business partner, product, discount schema, break, ...) are plain integers;
  amounts (BigDecimal) and percentages (Percent) are carried as opaque integers, since the loader
  only copies them; dates (LocalDate) are day numbers.
*/
module PricingTypes {
  import opened Wrappers

  type PartnerId = int
  type ProductId = int
  type ProductCategoryId = int
  type PricingConditionsId = int
  type BreakId = int
  type PaymentTermId = int
  type OrderLineId = int
  type Date = int
  type Amount = int
  type Percent = int

  /** A looked-up business partner: its id and the name shown to the user. */
  datatype LookupValue = LookupValue(id: int, displayName: string)

  datatype MatchCriteria = MatchCriteria(
    breakValue: Amount,
    productId: Option<ProductId>,
    productCategoryId: Option<ProductCategoryId>)

  /** How a break overrides the price; only the fixed price is built by the loader itself. */
  datatype PriceOverride = FixedPrice(price: Amount) | OtherPriceOverride(code: int)

  /** One rule of a discount schema. A synthetic break has no id and no creation date. */
  datatype PricingConditionsBreak = PricingConditionsBreak(
    id: Option<BreakId>,
    pricingConditionsId: Option<PricingConditionsId>,
    matchCriteria: MatchCriteria,
    priceOverride: PriceOverride,
    paymentTermId: PaymentTermId,
    discount: Percent,
    dateCreated: Option<Date>)

  /**
    A discount schema as the pricing-conditions repository returns it. The loader never reads its
    fields; it only hands the value over to the breaks extractor, so it stands for an opaque
    repository value.
  */
  datatype PricingConditions = PricingConditions(id: PricingConditionsId, breaks: seq<PricingConditionsBreak>)

  /** A (schema, partner, direction) triple; isSOTrx is true for the customer (sales) side. */
  datatype PricingConditionsInfo = PricingConditionsInfo(
    pricingConditionsId: PricingConditionsId,
    bpartner: LookupValue,
    isSOTrx: bool)
  {
    function BPartnerId(): PartnerId {
      bpartner.id
    }
  }

  /** One row shown to the user. The partner of a synthesised row may be unknown to the lookups. */
  datatype PricingConditionsRow = PricingConditionsRow(
    bpartner: Option<LookupValue>,
    customer: bool,
    editable: bool,
    pricingConditionsId: Option<PricingConditionsId>,
    pricingConditionsBreak: PricingConditionsBreak,
    dateLastInOut: Option<Date>)
  {
    predicate IsVendor() {
      !customer
    }

    function BPartnerId(): Option<PartnerId> {
      match bpartner
      case Some(v) => Some(v.id)
      case None => None
    }

    /** The display name the rows are sorted by; every loaded row has a partner. */
    function BPartnerDisplayName(): string {
      match bpartner
      case Some(v) => v.displayName
      case None => ""
    }

    /** The same row, made editable (copyAndChangeToEditable). */
    function CopyAndChangeToEditable(): PricingConditionsRow {
      this.(editable := true)
    }
  }

  /** The order line being edited, if any. */
  datatype SourceDocumentLine = SourceDocumentLine(
    orderLineId: Option<OrderLineId>,
    isSOTrx: bool,
    bpartnerId: PartnerId,
    productId: Option<ProductId>,
    productCategoryId: Option<ProductCategoryId>,
    priceEntered: Amount,
    discount: Percent,
    paymentTermId: PaymentTermId,
    pricingConditionsBreakId: Option<BreakId>)

  /** Key of the last-in/out-date memo. */
  datatype LastInOutDateRequest = LastInOutDateRequest(bpartnerId: PartnerId, productId: ProductId, isSOTrx: bool)

  /** What the shipment/receipt repository answers: a date, no date, or a thrown (unchecked) exception. */
  datatype InOutFetch = Found(date: Date) | NotFound | FetchFailed

  /** The user's view filters; opaque to the loader. */
  datatype DocumentFiltersList = DocumentFiltersList(filterIds: seq<string>)

  const EMPTY_FILTERS := DocumentFiltersList([])

  datatype PricingConditionsRowData = PricingConditionsRowData(
    editableRow: Option<PricingConditionsRow>,
    rows: seq<PricingConditionsRow>,
    orderLineId: Option<OrderLineId>)

  /** The exceptions the load can end in. */
  datatype LoadError =
    | NullPricingConditionsId      // a PricingConditionsInfo built with a null schema id
    | LastInOutDateFetchFailed     // an exception thrown by the shipment/receipt repository

  /** The keys of a Java map are distinct. */
  predicate DistinctKeys(m: seq<(PartnerId, int)>) {
    forall i, j | 0 <= i < j < |m| :: m[i].0 != m[j].0
  }

  /** A partner-to-discount-schema map, listed in its iteration order. */
  type DiscountSchemaMap = m: seq<(PartnerId, int)> | DistinctKeys(m) witness []

  /**
    The services the loader calls, as functions of their arguments:
    - retrieveDiscountSchemaIds(adClientId, isSOTrx): the bpartner repository's
      partner-to-discount-schema map for one direction;
    - lookupBPartner: the partner lookup, None where Java returns null;
    - discountSchemaIdOf(partner, isSOTrx): the bpartner service's direct schema lookup;
    - pricingConditionsById and extractBreaks: the pricing-conditions repository and the
      (pluggable) breaks extractor, None standing for a null break;
    - lastInOutDate: the shipment/receipt repository;
    - filterRowData: PricingConditionsRowData.filter, whose code is not part of this model.
  */
  datatype Collaborators = Collaborators(
    retrieveDiscountSchemaIds: (int, bool) -> DiscountSchemaMap,
    lookupBPartner: PartnerId -> Option<LookupValue>,
    discountSchemaIdOf: (PartnerId, bool) -> int,
    pricingConditionsById: PricingConditionsId -> PricingConditions,
    extractBreaks: PricingConditions -> seq<Option<PricingConditionsBreak>>,
    lastInOutDate: LastInOutDateRequest -> InOutFetch,
    filterRowData: (PricingConditionsRowData, DocumentFiltersList) -> PricingConditionsRowData)

  /** PricingConditionsId.ofDiscountSchemaIdOrNull: a non-positive repository id means "none". */
  function OfDiscountSchemaIdOrNull(discountSchemaId: int): Option<PricingConditionsId> {
    if discountSchemaId > 0 then Some(discountSchemaId) else None
  }
}
