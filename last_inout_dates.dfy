/**
  The last shipment/receipt date shown on a row, and the memo table (lastInOutDates) that the loader
  keeps per (partner, product, direction) so that the shipment/receipt repository is asked once per key.
*/
module LastInOutDates {
  import opened Wrappers
  import opened PricingTypes

  type Memo = map<LastInOutDateRequest, Option<Date>>

  /** The memo key for a row: none when the break names no product. */
  function RequestOf(bpartnerId: PartnerId, isSOTrx: bool, pricingConditionsBreak: PricingConditionsBreak): (r: Option<LastInOutDateRequest>)
    ensures r.None? <==> pricingConditionsBreak.matchCriteria.productId.None?
    ensures r.Some? ==>
      r.value.bpartnerId == bpartnerId && r.value.isSOTrx == isSOTrx &&
      Some(r.value.productId) == pricingConditionsBreak.matchCriteria.productId
  {
    match pricingConditionsBreak.matchCriteria.productId
    case None => None
    case Some(productId) => Some(LastInOutDateRequest(bpartnerId, productId, isSOTrx))
  }

  /** What a row shows for one repository answer: a failed fetch degrades to "no date". */
  function FetchedDate(fetch: InOutFetch): (r: Option<Date>)
    ensures r.Some? <==> fetch.Found?
  {
    match fetch
    case Found(date) => Some(date)
    case NotFound => None
    case FetchFailed => None
  }

  /** The date getLastInOutDate yields, as if the repository were asked directly. */
  function LastInOutDateOf(
    fetch: LastInOutDateRequest -> InOutFetch, bpartnerId: PartnerId, isSOTrx: bool,
    pricingConditionsBreak: PricingConditionsBreak): (r: Option<Date>)
    ensures pricingConditionsBreak.matchCriteria.productId.None? ==> r.None?
    ensures pricingConditionsBreak.matchCriteria.productId.Some? ==>
      var request := LastInOutDateRequest(bpartnerId, pricingConditionsBreak.matchCriteria.productId.value, isSOTrx);
      r == FetchedDate(fetch(request)) && (fetch(request).FetchFailed? ==> r.None?)
  {
    match RequestOf(bpartnerId, isSOTrx, pricingConditionsBreak)
    case None => None
    case Some(request) => FetchedDate(fetch(request))
  }

  /** Every memoised entry is what the repository answers for its key; failures are never stored. */
  ghost predicate MemoConsistent(memo: Memo, fetch: LastInOutDateRequest -> InOutFetch) {
    forall request | request in memo :: !fetch(request).FetchFailed? && memo[request] == FetchedDate(fetch(request))
  }

  /**
    lastInOutDates.get(request) with the catch that the loader evidently intends: a hit returns the
    memoised value; a miss asks the repository and memoises the answer; a failed fetch yields no date
    and memoises nothing, so the next request for that key asks again.
  */
  function CachedDate(memo: Memo, fetch: LastInOutDateRequest -> InOutFetch, request: LastInOutDateRequest): (r: (Option<Date>, Memo))
    ensures MemoConsistent(memo, fetch) ==> r.0 == FetchedDate(fetch(request)) && MemoConsistent(r.1, fetch)
    ensures request in memo ==> r.1 == memo
    ensures r.1.Keys == memo.Keys + (if fetch(request).FetchFailed? then {} else {request})
    ensures forall k | k in memo :: k in r.1 && r.1[k] == memo[k]
  {
    if request in memo then (memo[request], memo)
    else
      match fetch(request)
      case FetchFailed => (None, memo)
      case _ => (FetchedDate(fetch(request)), memo[request := FetchedDate(fetch(request))])
  }

  /**
    Asking twice for the same key gives the same date; once a date (or "no date") has been
    fetched, the second request is a hit and leaves the memo as it is.
  */
  lemma CachedDateRepeated(memo: Memo, fetch: LastInOutDateRequest -> InOutFetch, request: LastInOutDateRequest)
    requires MemoConsistent(memo, fetch)
    ensures var first := CachedDate(memo, fetch, request);
      var second := CachedDate(first.1, fetch, request);
      second.0 == first.0 &&
      (!fetch(request).FetchFailed? ==> request in first.1 && second.1 == first.1)
  {
  }

  /**
    lastInOutDates.get(request) as the loader is written. Guava's LoadingCache.get throws
    ExecutionException only for a checked exception of the cache loader; the loader here declares
    none, so a repository exception arrives as UncheckedExecutionException, which the catch clause
    does not catch, and the whole load fails.
  */
  function CachedDateAsWritten(memo: Memo, fetch: LastInOutDateRequest -> InOutFetch, request: LastInOutDateRequest): (r: Result<(Option<Date>, Memo), LoadError>)
    ensures r.Failure? <==> request !in memo && fetch(request).FetchFailed?
  {
    if request in memo then Success((memo[request], memo))
    else
      match fetch(request)
      case FetchFailed => Failure(LastInOutDateFetchFailed)
      case Found(date) => Success((Some(date), memo[request := Some(date)]))
      case NotFound => Success((None, memo[request := None]))
  }

  /** Where no fetch fails, the code as written and the intended memo agree. */
  lemma AsWrittenAgreesWithoutFailure(memo: Memo, fetch: LastInOutDateRequest -> InOutFetch, request: LastInOutDateRequest)
    requires request in memo || !fetch(request).FetchFailed?
    ensures CachedDateAsWritten(memo, fetch, request) == Success(CachedDate(memo, fetch, request))
  {
  }

  /**
    The discrepancy: a repository that throws for an unmemoised key makes the code as written fail,
    where the intended behaviour (the catch clause logs a warning and answers null) is to show no date.
  */
  lemma AsWrittenPropagatesFetchFailure()
    ensures var fetch := (request: LastInOutDateRequest) => FetchFailed;
      var request := LastInOutDateRequest(1, 1, true);
      CachedDateAsWritten(map[], fetch, request) == Failure(LastInOutDateFetchFailed)
      && CachedDate(map[], fetch, request) == (None, map[])
  {
  }

  // ---------------------------------------------------------------------------------------------
  // A sequence of getLastInOutDate calls

  /**
    The memo table and the log of repository calls after one getLastInOutDate call for `request`
    (None: a break without product, which neither reads nor changes the memo).
  */
  function Step(state: (Memo, seq<LastInOutDateRequest>), fetch: LastInOutDateRequest -> InOutFetch, request: Option<LastInOutDateRequest>): (Memo, seq<LastInOutDateRequest>) {
    match request
    case None => state
    case Some(key) => (CachedDate(state.0, fetch, key).1, state.1 + (if key in state.0 then [] else [key]))
  }

  /** The memo table, and the repository calls made, after the calls for `requests` in order. */
  function Replay(memo: Memo, fetch: LastInOutDateRequest -> InOutFetch, requests: seq<Option<LastInOutDateRequest>>): (Memo, seq<LastInOutDateRequest>)
    decreases |requests|
  {
    if requests == [] then (memo, [])
    else Step(Replay(memo, fetch, requests[..|requests| - 1]), fetch, requests[|requests| - 1])
  }

  /** One more request is one more Step. */
  lemma ReplaySnoc(memo: Memo, fetch: LastInOutDateRequest -> InOutFetch, a: seq<Option<LastInOutDateRequest>>, x: Option<LastInOutDateRequest>)
    ensures Replay(memo, fetch, a + [x]) == Step(Replay(memo, fetch, a), fetch, x)
  {
    assert (a + [x])[..|a|] == a;
  }

  /** Calls for `a` and then for `b` are the calls for `a + b`. */
  lemma {:induction false} ReplayAppend(memo: Memo, fetch: LastInOutDateRequest -> InOutFetch, a: seq<Option<LastInOutDateRequest>>, b: seq<Option<LastInOutDateRequest>>)
    ensures var (m1, asked1) := Replay(memo, fetch, a);
      var (m2, asked2) := Replay(m1, fetch, b);
      Replay(memo, fetch, a + b) == (m2, asked1 + asked2)
    decreases |b|
  {
    if b == [] {
      assert a + b == a;
      var (m1, asked1) := Replay(memo, fetch, a);
      assert Replay(m1, fetch, b) == (m1, []);
      assert asked1 + [] == asked1;
    } else {
      var init, last := b[..|b| - 1], b[|b| - 1];
      ReplayAppend(memo, fetch, a, init);
      assert (a + b)[..|a + b| - 1] == a + init;
      assert (a + b)[|a + b| - 1] == last;
      var (m1, asked1) := Replay(memo, fetch, a);
      var (m2, asked2) := Replay(m1, fetch, init);
      assert Replay(memo, fetch, a + b) == Step((m2, asked1 + asked2), fetch, last);
      assert Replay(m1, fetch, b) == Step((m2, asked2), fetch, last);
      if last.Some? {
        var extra := if last.value in m2 then [] else [last.value];
        assert (asked1 + asked2) + extra == asked1 + (asked2 + extra);
      }
    }
  }

  /**
    Replaying `a` and then `b`, with the calls appended to a log, leaves the memo and the log as
    replaying `a + b` does.
  */
  lemma ReplayInSequence(
    fetch: LastInOutDateRequest -> InOutFetch, a: seq<Option<LastInOutDateRequest>>, b: seq<Option<LastInOutDateRequest>>,
    memo0: Memo, log0: seq<LastInOutDateRequest>, memo1: Memo, log1: seq<LastInOutDateRequest>,
    memo2: Memo, log2: seq<LastInOutDateRequest>)
    requires memo1 == Replay(memo0, fetch, a).0 && log1 == log0 + Replay(memo0, fetch, a).1
    requires memo2 == Replay(memo1, fetch, b).0 && log2 == log1 + Replay(memo1, fetch, b).1
    ensures memo2 == Replay(memo0, fetch, a + b).0 && log2 == log0 + Replay(memo0, fetch, a + b).1
  {
    ReplayAppend(memo0, fetch, a, b);
    var asked1, asked2 := Replay(memo0, fetch, a).1, Replay(memo1, fetch, b).1;
    assert Replay(memo0, fetch, a + b) == (memo2, asked1 + asked2);
    assert log2 == (log0 + asked1) + asked2 == log0 + (asked1 + asked2);
  }

  /**
    The repository calls `asked` made from memo `memo` were all misses, and no key whose fetch
    succeeds was asked twice.
  */
  ghost predicate AsksOncePerKey(memo: Memo, fetch: LastInOutDateRequest -> InOutFetch, asked: seq<LastInOutDateRequest>) {
    && (forall i | 0 <= i < |asked| :: asked[i] !in memo)
    && (forall i, j | 0 <= i < j < |asked| && asked[i] == asked[j] :: fetch(asked[i]).FetchFailed?)
  }

  /** The keys among `requests` whose fetch succeeds. */
  ghost function Succeeding(fetch: LastInOutDateRequest -> InOutFetch, requests: seq<Option<LastInOutDateRequest>>): set<LastInOutDateRequest> {
    set i | 0 <= i < |requests| && requests[i].Some? && !fetch(requests[i].value).FetchFailed? :: requests[i].value
  }

  /**
    What a sequence of calls does to a consistent memo: it stays consistent, keeps its entries and
    gains exactly the succeeding keys; the repository is asked only for keys that were not memoised
    before, each of them among the requests, and for a key whose fetch succeeds at most once.
  */
  lemma {:induction false} ReplayContents(memo: Memo, fetch: LastInOutDateRequest -> InOutFetch, requests: seq<Option<LastInOutDateRequest>>)
    requires MemoConsistent(memo, fetch)
    ensures var (m, asked) := Replay(memo, fetch, requests);
      && MemoConsistent(m, fetch)
      && m.Keys == memo.Keys + Succeeding(fetch, requests)
      && (forall k | k in memo :: m[k] == memo[k])
      && AsksOncePerKey(memo, fetch, asked)
      && (forall i | 0 <= i < |asked| :: Some(asked[i]) in requests)
      && (forall i | 0 <= i < |asked| :: !fetch(asked[i]).FetchFailed? ==> asked[i] in m)
    decreases |requests|
  {
    if requests != [] {
      var init := requests[..|requests| - 1];
      var last := requests[|requests| - 1];
      ReplayContents(memo, fetch, init);
      assert forall i | 0 <= i < |init| :: init[i] == requests[i];
      assert Succeeding(fetch, requests) == Succeeding(fetch, init) +
        (if last.Some? && !fetch(last.value).FetchFailed? then {last.value} else {}) by {
        forall k | k in Succeeding(fetch, requests)
          ensures k in Succeeding(fetch, init) || (last.Some? && last.value == k)
        {
          var i :| 0 <= i < |requests| && requests[i].Some? && !fetch(requests[i].value).FetchFailed? && requests[i].value == k;
          if i < |init| {
            assert init[i] == requests[i];
          }
        }
      }
    }
  }

  /**
    The same calls with the memo as written: the first failing fetch of an unmemoised key aborts;
    otherwise the memo grows as with getLastInOutDate.
  */
  function ReplayAsWritten(memo: Memo, fetch: LastInOutDateRequest -> InOutFetch, requests: seq<Option<LastInOutDateRequest>>): (r: Result<Memo, LoadError>)
    ensures r.Failure? ==> r.error == LastInOutDateFetchFailed
    decreases |requests|
  {
    if requests == [] then Success(memo)
    else
      var m :- ReplayAsWritten(memo, fetch, requests[..|requests| - 1]);
      match requests[|requests| - 1]
      case None => Success(m)
      case Some(key) =>
        var answer :- CachedDateAsWritten(m, fetch, key);
        Success(answer.1)
  }

  /**
    Over a consistent memo, the calls as written fail exactly when some requested key's fetch fails,
    and otherwise leave the memo the intended calls leave.
  */
  lemma {:induction false} ReplayAsWrittenOutcome(memo: Memo, fetch: LastInOutDateRequest -> InOutFetch, requests: seq<Option<LastInOutDateRequest>>)
    requires MemoConsistent(memo, fetch)
    ensures ReplayAsWritten(memo, fetch, requests).Failure? <==>
      exists i | 0 <= i < |requests| :: requests[i].Some? && fetch(requests[i].value).FetchFailed?
    ensures ReplayAsWritten(memo, fetch, requests).Success? ==>
      ReplayAsWritten(memo, fetch, requests).value == Replay(memo, fetch, requests).0
    decreases |requests|
  {
    if requests != [] {
      var init := requests[..|requests| - 1];
      var last := requests[|requests| - 1];
      ReplayAsWrittenOutcome(memo, fetch, init);
      ReplayContents(memo, fetch, init);
      assert forall i | 0 <= i < |init| :: init[i] == requests[i];
      if ReplayAsWritten(memo, fetch, init).Success? && last.Some? {
        var m := ReplayAsWritten(memo, fetch, init).value;
        if !fetch(last.value).FetchFailed? {
          AsWrittenAgreesWithoutFailure(m, fetch, last.value);
        }
      }
    }
  }
}
