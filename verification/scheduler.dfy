/**
  The bounded-admission lookup scheduler (`processQueue` and `handleProcess`).
  Parsed references are queued, at most `ConcurrencyLimit` lookups are in
  flight at a time, references are admitted in queue order, and each lookup
  outcome moves its reference to SUCCESS, NOT_FOUND or ERROR. The run resolves
  once every reference has been admitted and no lookup is in flight.

  A lookup finishing (its `then`/`catch` update, then `finally`'s decrement and
  call of `next`) is one atomic step, `Complete`; which lookup finishes next is
  the caller's choice.
 */
module Scheduler {
  import opened Text
  import opened Types
  import opened Parser

  /** `CONCURRENCY_LIMIT`. */
  const ConcurrencyLimit: nat := 3

  /** What a lookup ends with: the best-matching work, no match, or a thrown
      error with its message (`API Error: <status>` for a failed response). */
  datatype Outcome = Match(work: CrossrefWork) | NoMatch | Failure(message: string)

  /** The fields of a `Partial<ReferenceItem>` update; `None` leaves a field as it is. */
  datatype Patch = Patch(
    status: Option<Status>,
    doi: Option<string>,
    title: Option<string>,
    score: Option<Score>,
    errorMessage: Option<string>)

  const NoTitle: string := "No title available"

  /** `result.title?.[0] || 'No title available'`: the first title when there is
      a non-empty one, the placeholder otherwise. Never empty. */
  function FirstTitle(titles: Option<seq<string>>): (r: string)
    ensures r != ""
    ensures titles.Some? && |titles.value| > 0 && titles.value[0] != "" ==> r == titles.value[0]
    ensures titles.None? || |titles.value| == 0 || titles.value[0] == "" ==> r == NoTitle
  {
    if titles.Some? && |titles.value| > 0 && titles.value[0] != "" then titles.value[0] else NoTitle
  }

  /** `{ ...item, ...updates }`: the fields present in the update replace the
      item's, every other field is kept (`ApplyFields` states it for every
      field; the contract here holds the facts the scheduler proofs use). */
  function Apply(item: ReferenceItem, p: Patch): (r: ReferenceItem)
    ensures r.id == item.id && r.originalText == item.originalText && r.cleanQuery == item.cleanQuery
    ensures p.status.Some? ==> r.status == p.status.value
    ensures p.status.None? ==> r.status == item.status
    ensures p.doi.Some? ==> r.doi == p.doi
    ensures p.doi.None? ==> r.doi == item.doi
    ensures p.errorMessage.None? ==> r.errorMessage == item.errorMessage
  {
    ReferenceItem(
      item.id, item.originalText, item.cleanQuery,
      if p.status.Some? then p.status.value else item.status,
      if p.doi.Some? then p.doi else item.doi,
      if p.title.Some? then p.title else item.title,
      if p.score.Some? then p.score else item.score,
      if p.errorMessage.Some? then p.errorMessage else item.errorMessage)
  }

  /** Every field of the spread: each of status, DOI, title, score and error
      message is the update's when the update has it and the item's otherwise;
      id, text and query are the item's. */
  lemma ApplyFields(item: ReferenceItem, p: Patch)
    ensures var r := Apply(item, p);
      && r.id == item.id && r.originalText == item.originalText && r.cleanQuery == item.cleanQuery
      && (p.status.Some? ==> r.status == p.status.value) && (p.status.None? ==> r.status == item.status)
      && (p.doi.Some? ==> r.doi == p.doi) && (p.doi.None? ==> r.doi == item.doi)
      && (p.title.Some? ==> r.title == p.title) && (p.title.None? ==> r.title == item.title)
      && (p.score.Some? ==> r.score == p.score) && (p.score.None? ==> r.score == item.score)
      && (p.errorMessage.Some? ==> r.errorMessage == p.errorMessage)
      && (p.errorMessage.None? ==> r.errorMessage == item.errorMessage)
  {
  }

  function StatusPatch(st: Status): Patch {
    Patch(Some(st), None, None, None, None)
  }

  /** The update made when a lookup ends (`then` / `catch`). */
  function OutcomePatch(outcome: Outcome): Patch {
    match outcome
    case Match(work) => Patch(Some(Success), Some(work.doi), Some(FirstTitle(work.title)), Some(work.score), None)
    case NoMatch => StatusPatch(NotFound)
    case Failure(message) => Patch(Some(Error), None, None, None, Some(message))
  }

  /** The recorded result fields agree with the status: a SUCCESS carries a DOI,
      a non-empty title and a score; an ERROR carries its message and nothing
      else; every other status carries no result at all. */
  ghost predicate ResultFieldsMatch(x: ReferenceItem) {
    match x.status
    case Success =>
      x.doi.Some? && x.title.Some? && x.title.value != "" && x.score.Some? && x.errorMessage.None?
    case Error =>
      x.errorMessage.Some? && x.doi.None? && x.title.None? && x.score.None?
    case _ => NoResult(x)
  }

  /** An outcome applied to a loading item without a result gives a terminal
      item whose result fields are exactly the outcome's. */
  lemma OutcomeResult(x: ReferenceItem, outcome: Outcome)
    requires x.status == Loading && NoResult(x)
    ensures var r := Apply(x, OutcomePatch(outcome));
      && IsTerminal(r.status) && ResultFieldsMatch(r)
      && (outcome.Match? ==>
            r.status == Success && r.doi == Some(outcome.work.doi)
            && r.title == Some(FirstTitle(outcome.work.title)) && r.score == Some(outcome.work.score))
      && (outcome.NoMatch? ==> r.status == NotFound && r.doi.None?)
      && (outcome.Failure? ==> r.status == Error && r.errorMessage == Some(outcome.message))
  {
  }

  /** `updateItemStatus`: `prev.map(item => item.id === id ? { ...item, ...updates } : item)`.
      Length, order and ids are kept, and an item with another id is untouched. */
  function UpdateItemStatus(items: seq<ReferenceItem>, id: string, p: Patch): (r: seq<ReferenceItem>)
    ensures |r| == |items|
    ensures forall k :: 0 <= k < |items| ==> r[k].id == items[k].id
    ensures forall k :: 0 <= k < |items| && items[k].id != id ==> r[k] == items[k]
  {
    seq(|items|, k requires 0 <= k < |items| => if items[k].id == id then Apply(items[k], p) else items[k])
  }

  /** With distinct ids, updating by the id of item `k` updates item `k` alone. */
  lemma UpdateAt(items: seq<ReferenceItem>, k: nat, p: Patch)
    requires k < |items| && DistinctIds(items)
    ensures UpdateItemStatus(items, items[k].id, p) == items[k := Apply(items[k], p)]
  {
    var r := UpdateItemStatus(items, items[k].id, p);
    forall j | 0 <= j < |items| ensures r[j] == items[k := Apply(items[k], p)][j] {
      if j != k {
        if j < k {
          assert items[j].id != items[k].id;
        } else {
          assert items[k].id != items[j].id;
        }
      }
    }
  }

  /** `parsedItems.map(item => ({ ...item, status: Status.QUEUED }))`. */
  function InitQueued(items: seq<ReferenceItem>): (r: seq<ReferenceItem>)
    ensures |r| == |items|
    ensures forall k :: 0 <= k < |items| ==> r[k] == items[k].(status := Queued)
  {
    seq(|items|, k requires 0 <= k < |items| => Apply(items[k], StatusPatch(Queued)))
  }

  /** Queuing keeps the ids, and every queued item is QUEUED. */
  lemma InitQueuedFacts(items: seq<ReferenceItem>)
    ensures DistinctIds(items) ==> DistinctIds(InitQueued(items))
    ensures forall k :: 0 <= k < |items| ==> InitQueued(items)[k].status == Queued
  {
    var r := InitQueued(items);
    forall i, j | 0 <= i < j < |items| && items[i].id != items[j].id ensures r[i].id != r[j].id {
      assert r[i].id == items[i].id && r[j].id == items[j].id;
    }
  }

  /** The status path of one reference: QUEUED, then LOADING, then one terminal
      status; a step may also leave the status as it is. */
  predicate Advances(before: Status, after: Status) {
    || before == after
    || (before == Queued && after == Loading)
    || (before == Loading && IsTerminal(after))
  }

  /** A reference of the run: `x` is the current state of the queued item `q`,
      admitted or not. */
  ghost predicate Tracks(q: ReferenceItem, x: ReferenceItem, admitted: bool) {
    && x.id == q.id && x.originalText == q.originalText && x.cleanQuery == q.cleanQuery
    && ResultFieldsMatch(x)
    && (if admitted then x.status == Loading || IsTerminal(x.status) else x == q)
  }

  /** The queries sent to the lookup service, in order. */
  function Queries(q: seq<ReferenceItem>): (r: seq<string>)
    ensures |r| == |q|
    ensures forall k :: 0 <= k < |q| ==> r[k] == q[k].cleanQuery
  {
    seq(|q|, k requires 0 <= k < |q| => q[k].cleanQuery)
  }

  lemma QueriesSnoc(q: seq<ReferenceItem>, a: nat, b: nat)
    requires a <= b < |q|
    ensures Queries(q[a..b + 1]) == Queries(q[a..b]) + [q[b].cleanQuery]
  {
    assert q[a..b + 1] == q[a..b] + [q[b]];
  }

  lemma QueriesOne(q: seq<ReferenceItem>, a: nat)
    requires a < |q|
    ensures Queries(q[a..a + 1]) == [q[a].cleanQuery]
  {
  }

  lemma QueriesNone(q: seq<ReferenceItem>, a: nat)
    requires a <= |q|
    ensures Queries(q[a..a]) == []
  {
  }

  /** The items with the positions `from` up to `to` marked LOADING. */
  function MarkLoading(items: seq<ReferenceItem>, from: nat, to: nat): (r: seq<ReferenceItem>)
    ensures |r| == |items|
  {
    seq(|items|, k requires 0 <= k < |items| =>
      if from <= k < to then Apply(items[k], StatusPatch(Loading)) else items[k])
  }

  lemma MarkLoadingStep(items: seq<ReferenceItem>, from: nat, to: nat)
    requires from <= to < |items|
    ensures MarkLoading(items, from, to + 1)
         == MarkLoading(items, from, to)[to := Apply(items[to], StatusPatch(Loading))]
  {
  }

  /** The bookkeeping of a run that holds at every step: the references before
      the cursor `index` have been admitted and the rest are untouched and
      QUEUED, the counter `active` is the number of LOADING references and never
      above the limit, and one query was sent per admitted reference, in queue
      order. */
  ghost predicate Accounts(queue: seq<ReferenceItem>, items: seq<ReferenceItem>, index: nat, active: nat,
                           requests: seq<string>) {
    && |items| == |queue| && index <= |queue| && active <= ConcurrencyLimit
    && DistinctIds(queue)
    && (forall k :: 0 <= k < |queue| ==> queue[k].status == Queued && NoResult(queue[k]))
    && (forall k :: 0 <= k < |queue| ==> Tracks(queue[k], items[k], k < index))
    && active == |WithStatus(items, Loading)|
    && requests == Queries(queue[..index])
  }

  /** The item ids are those of the queue, so they are distinct too. */
  lemma ItemIds(queue: seq<ReferenceItem>, items: seq<ReferenceItem>, index: nat, active: nat,
                requests: seq<string>)
    requires Accounts(queue, items, index, active, requests)
    ensures DistinctIds(items)
  {
    forall i, j | 0 <= i < j < |items| ensures items[i].id != items[j].id {
      assert Tracks(queue[i], items[i], i < index);
      assert Tracks(queue[j], items[j], j < index);
    }
  }

  /** At the start nothing is admitted and nothing is in flight. */
  lemma Start(queue: seq<ReferenceItem>)
    requires DistinctIds(queue)
    requires forall k :: 0 <= k < |queue| ==> queue[k].status == Queued && NoResult(queue[k])
    ensures Accounts(queue, queue, 0, 0, [])
  {
    NoneLoading(queue);
    assert queue[..0] == [];
  }

  /** Admitting the reference at the cursor (the body of the fill loop) marks it
      LOADING in place, sends its query, and keeps the bookkeeping. */
  lemma AdmitStep(queue: seq<ReferenceItem>, items: seq<ReferenceItem>, index: nat, active: nat,
                  requests: seq<string>)
    requires Accounts(queue, items, index, active, requests)
    requires index < |queue| && active < ConcurrencyLimit
    ensures items[index] == queue[index]
    ensures UpdateItemStatus(items, queue[index].id, StatusPatch(Loading))
         == items[index := Apply(queue[index], StatusPatch(Loading))]
    ensures Accounts(queue, items[index := Apply(queue[index], StatusPatch(Loading))], index + 1, active + 1,
                     requests + [queue[index].cleanQuery])
  {
    ItemIds(queue, items, index, active, requests);
    assert Tracks(queue[index], items[index], false);
    var x := Apply(items[index], StatusPatch(Loading));
    UpdateAt(items, index, StatusPatch(Loading));
    WithStatusUpdate(items, index, x, Loading);
    assert queue[..index + 1] == queue[..index] + [queue[index]];
    forall k | 0 <= k < |queue| ensures Tracks(queue[k], items[index := x][k], k < index + 1) {
      assert Tracks(queue[k], items[k], k < index);
    }
  }

  /** One turn of the fill loop, seen from the start of the loop: the items are
      those at the start with the admitted range marked LOADING, and admitting
      one more reference extends that range by one. */
  lemma FillStep(queue: seq<ReferenceItem>, items0: seq<ReferenceItem>, from: nat,
                 items: seq<ReferenceItem>, index: nat, active: nat, requests: seq<string>,
                 next: nat, active': nat, requests': seq<string>)
    requires Accounts(queue, items, index, active, requests)
    requires index < |queue| && active < ConcurrencyLimit
    requires from <= index && |items0| == |items| && items == MarkLoading(items0, from, index)
    requires next == index + 1 && active' == active + 1 && requests' == requests + [queue[index].cleanQuery]
    ensures UpdateItemStatus(items, queue[index].id, StatusPatch(Loading)) == MarkLoading(items0, from, next)
    ensures Accounts(queue, MarkLoading(items0, from, next), next, active', requests')
  {
    AdmitStep(queue, items, index, active, requests);
    assert items0[index] == items[index];
    MarkLoadingStep(items0, from, index);
  }

  /** The fill loop keeps the bookkeeping: admitting the references from
      `start` up to `stop` in order, with a slot free for each, marks exactly
      them LOADING, counts them as active and sends their queries. */
  lemma {:induction false} FillAccounts(queue: seq<ReferenceItem>, items0: seq<ReferenceItem>, start: nat,
                                        active0: nat, requests0: seq<string>, stop: nat)
    requires Accounts(queue, items0, start, active0, requests0)
    requires start <= stop <= |queue| && active0 + (stop - start) <= ConcurrencyLimit
    ensures Accounts(queue, MarkLoading(items0, start, stop), stop, active0 + (stop - start),
                     requests0 + Queries(queue[start..stop]))
    decreases stop
  {
    if start == stop {
      MarkLoadingNone(items0, start);
      QueriesNone(queue, start);
    } else {
      FillAccounts(queue, items0, start, active0, requests0, stop - 1);
      FillLast(queue, items0, start, active0, requests0, stop);
    }
  }

  /** The last turn of the fill loop from `start` up to `stop`. */
  lemma FillLast(queue: seq<ReferenceItem>, items0: seq<ReferenceItem>, start: nat,
                 active0: nat, requests0: seq<string>, stop: nat)
    requires start < stop <= |queue| && active0 + (stop - start) <= ConcurrencyLimit
    requires Accounts(queue, MarkLoading(items0, start, stop - 1), stop - 1, active0 + (stop - 1 - start),
                      requests0 + Queries(queue[start..stop - 1]))
    requires |items0| == |queue|
    ensures Accounts(queue, MarkLoading(items0, start, stop), stop, active0 + (stop - start),
                     requests0 + Queries(queue[start..stop]))
  {
    QueriesAppend(queue, start, stop, requests0);
    FillStep(queue, items0, start, MarkLoading(items0, start, stop - 1), stop - 1, active0 + (stop - 1 - start),
             requests0 + Queries(queue[start..stop - 1]),
             stop, active0 + (stop - start), requests0 + Queries(queue[start..stop]));
  }

  lemma QueriesAppend(queue: seq<ReferenceItem>, start: nat, stop: nat, requests0: seq<string>)
    requires start < stop <= |queue|
    ensures requests0 + Queries(queue[start..stop - 1]) + [queue[stop - 1].cleanQuery]
         == requests0 + Queries(queue[start..stop])
  {
    QueriesSnoc(queue, start, stop - 1);
  }

  /** The next turn of the fill loop marks the next reference LOADING and
      sends its query. */
  lemma FillNext(queue: seq<ReferenceItem>, items0: seq<ReferenceItem>, start: nat,
                 active0: nat, requests0: seq<string>, index: nat)
    requires Accounts(queue, items0, start, active0, requests0)
    requires start <= index < |queue| && active0 + (index - start) < ConcurrencyLimit
    ensures UpdateItemStatus(MarkLoading(items0, start, index), queue[index].id, StatusPatch(Loading))
         == MarkLoading(items0, start, index + 1)
    ensures requests0 + Queries(queue[start..index + 1])
         == requests0 + Queries(queue[start..index]) + [queue[index].cleanQuery]
  {
    FillAccounts(queue, items0, start, active0, requests0, index);
    FillStep(queue, items0, start, MarkLoading(items0, start, index), index, active0 + (index - start),
             requests0 + Queries(queue[start..index]),
             index + 1, active0 + (index - start) + 1, requests0 + Queries(queue[start..index]) + [queue[index].cleanQuery]);
    QueriesSnoc(queue, start, index);
  }

  /** Settling reference `i` with an outcome changes it alone, makes it terminal
      with the outcome's fields, and frees its slot. */
  lemma SettleStep(queue: seq<ReferenceItem>, items: seq<ReferenceItem>, index: nat, active: nat,
                   requests: seq<string>, i: nat, outcome: Outcome)
    requires Accounts(queue, items, index, active, requests)
    requires i < |items| && items[i].status == Loading
    ensures i < index && active > 0
    ensures UpdateItemStatus(items, queue[i].id, OutcomePatch(outcome))
         == items[i := Apply(items[i], OutcomePatch(outcome))]
    ensures Accounts(queue, items[i := Apply(items[i], OutcomePatch(outcome))], index, active - 1, requests)
  {
    ItemIds(queue, items, index, active, requests);
    assert Tracks(queue[i], items[i], i < index);
    var x := Apply(items[i], OutcomePatch(outcome));
    OutcomeResult(items[i], outcome);
    UpdateAt(items, i, OutcomePatch(outcome));
    WithStatusUpdate(items, i, x, Loading);
    WithStatusBounds(items, Loading);
    forall k | 0 <= k < |queue| ensures Tracks(queue[k], items[i := x][k], k < index) {
      assert Tracks(queue[k], items[k], k < index);
    }
  }

  /** An unadmitted reference is still QUEUED, and a positive counter means
      some reference is LOADING. */
  lemma Pending(queue: seq<ReferenceItem>, items: seq<ReferenceItem>, index: nat, active: nat,
                requests: seq<string>)
    requires Accounts(queue, items, index, active, requests)
    ensures index < |queue| ==> items[index].status == Queued
    ensures active > 0 ==> exists k :: 0 <= k < |items| && items[k].status == Loading
  {
    if index < |queue| {
      assert Tracks(queue[index], items[index], false);
    }
    if active > 0 {
      WithStatusBounds(items, Loading);
    }
  }

  /** A run is done (every reference admitted, nothing in flight) exactly when
      every reference has reached a terminal status. */
  lemma DoneIffAllSettled(queue: seq<ReferenceItem>, items: seq<ReferenceItem>, index: nat, active: nat,
                          requests: seq<string>)
    requires Accounts(queue, items, index, active, requests)
    ensures (index >= |queue| && active == 0) <==> forall k :: 0 <= k < |items| ==> IsTerminal(items[k].status)
  {
    Pending(queue, items, index, active, requests);
    if index >= |queue| && active == 0 {
      WithStatusBounds(items, Loading);
      forall k | 0 <= k < |items| ensures IsTerminal(items[k].status) {
        assert Tracks(queue[k], items[k], k < index);
      }
    }
  }

  /** One run of `processQueue` over the references parsed from a text. */
  class BatchRun {
    /** The snapshot `queue` of the initial items. */
    const queue: seq<ReferenceItem>
    /** The displayed items (`items` state), replaced by each update. */
    var items: seq<ReferenceItem>
    /** The admission cursor `index`. */
    var index: nat
    /** `activeRequests`. */
    var active: nat
    /** The queries passed to `fetchDoi`, in call order. */
    var requests: seq<string>
    /** How many times the run's promise has been resolved. */
    var resolveCount: nat

    /** Every reference admitted and no lookup in flight. */
    ghost predicate Done()
      reads this
    {
      index >= |queue| && active == 0
    }

    ghost predicate Accounting()
      reads this
    {
      Accounts(queue, items, index, active, requests)
    }

    /** Between events: the fill loop has run to its end (no free slot or no
        reference left) and the promise has been resolved exactly when, and
        only once, the run is done. */
    ghost predicate Valid()
      reads this
    {
      && Accounting()
      && (active < ConcurrencyLimit ==> index == |queue|)
      && resolveCount == (if Done() then 1 else 0)
    }

    /** `handleProcess`: parse the text, queue every item, and start the run
        with a first call of `next`. */
    constructor HandleProcess(text: string)
      ensures queue == InitQueued(ParseSpec(text))
      ensures Valid()
      ensures index == if |queue| < ConcurrencyLimit then |queue| else ConcurrencyLimit
      ensures active == index
      ensures items == MarkLoading(queue, 0, index)
      ensures resolveCount == if |queue| == 0 then 1 else 0
    {
      var parsed := ParseReferences(text);
      ParseIds(text);
      InitQueuedFacts(parsed);
      queue := InitQueued(parsed);
      items := InitQueued(parsed);
      index := 0;
      active := 0;
      requests := [];
      resolveCount := 0;
      new;
      Start(queue);
      Next();
    }

    /** `next`: resolve when done; otherwise admit references in order, marking
        each LOADING and sending its query, while a slot is free. */
    method Next()
      requires Accounting() && resolveCount == 0
      requires active < ConcurrencyLimit || index == |queue|
      modifies this
      ensures Valid()
      ensures old(Done()) ==> index == old(index) && active == old(active) && items == old(items)
                              && requests == old(requests) && resolveCount == 1
      ensures !old(Done()) ==>
        && index == (if |queue| < old(index) + (ConcurrencyLimit - old(active)) then |queue|
                     else old(index) + (ConcurrencyLimit - old(active)))
        && active == old(active) + (index - old(index))
        && items == MarkLoading(old(items), old(index), index)
        && requests == old(requests) + Queries(queue[old(index)..index])
    {
      if index >= |queue| && active == 0 {
        resolveCount := resolveCount + 1;
        return;
      }
      Fill();
    }

    /** The fill loop of `next`: while a slot is free and a reference is left,
        take the next reference, count it as active, mark it LOADING and send
        its query. */
    method Fill()
      requires Accounting() && resolveCount == 0
      modifies this
      ensures Accounting() && resolveCount == 0
      ensures active < ConcurrencyLimit ==> index == |queue|
      ensures index == (if |queue| < old(index) + (ConcurrencyLimit - old(active)) then |queue|
                        else old(index) + (ConcurrencyLimit - old(active)))
      ensures active == old(active) + (index - old(index))
      ensures items == MarkLoading(old(items), old(index), index)
      ensures requests == old(requests) + Queries(queue[old(index)..index])
    {
      while active < ConcurrencyLimit && index < |queue|
        invariant resolveCount == 0
        invariant old(index) <= index <= |queue|
        invariant active == old(active) + (index - old(index)) <= ConcurrencyLimit
        invariant items == MarkLoading(old(items), old(index), index)
        invariant requests == old(requests) + Queries(queue[old(index)..index])
        decreases |queue| - index
      {
        var current := queue[index];
        FillNext(queue, old(items), old(index), old(active), old(requests), index);
        index := index + 1;
        active := active + 1;
        items := UpdateItemStatus(items, current.id, StatusPatch(Loading));
        requests := requests + [current.cleanQuery];
      }
      FillAccounts(queue, old(items), old(index), old(active), old(requests), index);
    }

    /** The settling half of a finished lookup of reference `i`: its `then`
        or `catch` handler writes the outcome's status and fields into the
        item, and its `finally` handler releases the slot. */
    method Settle(i: nat, outcome: Outcome)
      requires Valid() && i < |items| && items[i].status == Loading
      modifies this
      ensures Accounting() && resolveCount == 0 && active < ConcurrencyLimit
      ensures items == old(items)[i := Apply(old(items[i]), OutcomePatch(outcome))]
      ensures IsTerminal(items[i].status)
      ensures index == old(index) && active == old(active) - 1 && requests == old(requests)
    {
      var id := queue[i].id;
      SettleStep(queue, items, index, active, requests, i, outcome);
      OutcomeResult(items[i], outcome);
      items := UpdateItemStatus(items, id, OutcomePatch(outcome));
      active := active - 1;
    }

    /** The lookup of reference `i` finishes with `outcome`: the reference takes
        the outcome's status and fields, the slot is released, and `next` runs
        again, admitting the next reference if there is one. */
    method Complete(i: nat, outcome: Outcome)
      requires Valid() && i < |items| && items[i].status == Loading
      modifies this
      ensures Valid()
      ensures items[i] == Apply(old(items[i]), OutcomePatch(outcome))
      ensures IsTerminal(items[i].status)
      ensures old(index) < |queue| ==>
        && index == old(index) + 1 && active == old(active)
        && items == old(items)[i := items[i]][old(index) := Apply(queue[old(index)], StatusPatch(Loading))]
        && requests == old(requests) + [queue[old(index)].cleanQuery]
      ensures old(index) == |queue| ==>
        && index == old(index) && active == old(active) - 1
        && items == old(items)[i := items[i]] && requests == old(requests)
      ensures forall k :: 0 <= k < |items| ==> Advances(old(items[k].status), items[k].status)
    {
      Pending(queue, items, index, active, requests);
      Settle(i, outcome);
      ghost var settled := items;
      Next();
      if old(index) < |queue| {
        AdmitStep(queue, settled, old(index), active - 1, old(requests));
        MarkLoadingOne(settled, old(index));
        QueriesOne(queue, old(index));
        SettleAdmitAdvances(old(items), i, settled[i], old(index), items[old(index)]);
      } else {
        MarkLoadingNone(settled, old(index));
        QueriesNone(queue, old(index));
        SettleAdmitAdvances(old(items), i, settled[i], i, settled[i]);
      }
    }
  }

  lemma MarkLoadingOne(items: seq<ReferenceItem>, a: nat)
    requires a < |items|
    ensures MarkLoading(items, a, a + 1) == items[a := Apply(items[a], StatusPatch(Loading))]
  {
  }

  lemma MarkLoadingNone(items: seq<ReferenceItem>, a: nat)
    ensures MarkLoading(items, a, a) == items
  {
  }

  /** Settling the LOADING reference `i` and admitting the QUEUED reference `a`
      (or nothing more, when `a` is `i`) moves every status along its path. */
  lemma SettleAdmitAdvances(before: seq<ReferenceItem>, i: nat, x: ReferenceItem, a: nat, y: ReferenceItem)
    requires i < |before| && a < |before|
    requires before[i].status == Loading && IsTerminal(x.status)
    requires a != i ==> before[a].status == Queued && y.status == Loading
    requires a == i ==> y == x
    ensures forall k :: 0 <= k < |before| ==> Advances(before[k].status, before[i := x][a := y][k].status)
  {
  }

  /** A sequence without LOADING items has a LOADING count of zero. */
  lemma NoneLoading(items: seq<ReferenceItem>)
    requires forall k :: 0 <= k < |items| ==> items[k].status != Loading
    ensures |WithStatus(items, Loading)| == 0
  {
    WithStatusBounds(items, Loading);
  }
}
