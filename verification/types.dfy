/**
  The records shared by the parser, the scheduler and the results list:
  the status of a reference, the reference itself and the part of a Crossref
  work record that the application reads.
 */
module Types {

  datatype Option<T> = None | Some(value: T)

  /** The life cycle of one reference. */
  datatype Status = Idle | Queued | Loading | Success | NotFound | Error

  predicate IsTerminal(s: Status) {
    s == Success || s == NotFound || s == Error
  }

  /** Crossref's relevance score: a JavaScript number, only ever copied. */
  type Score = real

  /** One reference entry; the optional fields are `None` until a lookup fills them. */
  datatype ReferenceItem = ReferenceItem(
    id: string,
    originalText: string,
    cleanQuery: string,
    status: Status,
    doi: Option<string>,
    title: Option<string>,
    score: Option<Score>,
    errorMessage: Option<string>)

  /** The fields of a Crossref work record that are used. */
  datatype CrossrefWork = CrossrefWork(doi: string, title: Option<seq<string>>, score: Score)

  /** The items with the given status, in order (`items.filter(i => i.status === st)`). */
  function WithStatus(items: seq<ReferenceItem>, st: Status): (r: seq<ReferenceItem>)
    decreases |items|
  {
    if items == [] then []
    else (if items[0].status == st then [items[0]] else []) + WithStatus(items[1..], st)
  }

  /** The filter keeps at most every item; it is empty exactly when no item
      has the status, and keeps everything exactly when every item has it. */
  lemma {:induction false} WithStatusBounds(items: seq<ReferenceItem>, st: Status)
    ensures |WithStatus(items, st)| <= |items|
    ensures |WithStatus(items, st)| == 0 <==> forall k :: 0 <= k < |items| ==> items[k].status != st
    ensures |WithStatus(items, st)| == |items| <==> forall k :: 0 <= k < |items| ==> items[k].status == st
    decreases |items|
  {
    if items != [] {
      var rest := items[1..];
      WithStatusBounds(rest, st);
      var n := |WithStatus(rest, st)|;
      assert |WithStatus(items, st)| == n + (if items[0].status == st then 1 else 0);
      assert (forall k :: 0 <= k < |items| ==> items[k].status != st)
         <==> items[0].status != st && forall k :: 0 <= k < |rest| ==> rest[k].status != st;
      assert (forall k :: 0 <= k < |items| ==> items[k].status == st)
         <==> items[0].status == st && forall k :: 0 <= k < |rest| ==> rest[k].status == st;
    }
  }

  /** When every item has the status, the filter keeps them all. */
  lemma {:induction false} WithStatusAll(items: seq<ReferenceItem>, st: Status)
    requires forall k :: 0 <= k < |items| ==> items[k].status == st
    ensures WithStatus(items, st) == items
    decreases |items|
  {
    if items != [] {
      WithStatusAll(items[1..], st);
    }
  }

  /** Changing one item changes the filter count only as that item's status changes. */
  lemma {:induction false} WithStatusUpdate(items: seq<ReferenceItem>, k: nat, x: ReferenceItem, st: Status)
    requires k < |items|
    ensures |WithStatus(items[k := x], st)|
         == |WithStatus(items, st)|
            - (if items[k].status == st then 1 else 0)
            + (if x.status == st then 1 else 0)
    decreases |items|
  {
    if k == 0 {
      assert items[k := x][1..] == items[1..];
    } else {
      assert items[k := x][1..] == items[1..][k - 1 := x];
      WithStatusUpdate(items[1..], k - 1, x, st);
    }
  }

  /** No two items share an id. */
  ghost predicate DistinctIds(items: seq<ReferenceItem>) {
    forall i, j :: 0 <= i < j < |items| ==> items[i].id != items[j].id
  }

  /** No lookup result has been recorded on the item yet. */
  predicate NoResult(item: ReferenceItem) {
    item.doi == None && item.title == None && item.score == None && item.errorMessage == None
  }
}
