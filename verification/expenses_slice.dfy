/**
 * The expenses store: the duplicate checks the add operations make against
 * the records already saved, the decision to refetch after a bulk add, the
 * error text a failed operation leaves, and the reducer's transitions over
 * `{items, status, error}`. The database is not modelled: the records read
 * back from it are an input, a failed read is a `Failure` carrying the
 * thrown value, and what a single record's write throws is an input too.
 */
module ExpensesSlice {
  import opened Wrappers
  import opened Types

  // ---------------------------------------------------------------------------
  // Filtering
  // ---------------------------------------------------------------------------

  /** `Array.prototype.filter`: the elements `keep` accepts, in order. */
  function Filter<T>(xs: seq<T>, keep: T -> bool): (r: seq<T>)
    ensures |r| <= |xs|
    ensures forall i :: 0 <= i < |r| ==> keep(r[i])
    decreases |xs|
  {
    if |xs| == 0 then []
    else (if keep(xs[0]) then [xs[0]] else []) + Filter(xs[1..], keep)
  }

  /** The filter keeps exactly the accepted elements. */
  lemma {:induction false} FilterMembers<T>(xs: seq<T>, keep: T -> bool, x: T)
    ensures x in Filter(xs, keep) <==> x in xs && keep(x)
    decreases |xs|
  {
    if |xs| > 0 {
      FilterMembers(xs[1..], keep, x);
      assert xs == [xs[0]] + xs[1..];
    }
  }

  /** Filtering a concatenation filters each part, so the kept elements stay
      in their original order. */
  lemma {:induction false} FilterAppend<T>(a: seq<T>, b: seq<T>, keep: T -> bool)
    ensures Filter(a + b, keep) == Filter(a, keep) + Filter(b, keep)
    decreases |a|
  {
    if |a| == 0 {
      assert a + b == b;
    } else {
      assert (a + b)[1..] == a[1..] + b;
      FilterAppend(a[1..], b, keep);
    }
  }

  /** A sequence whose every element is accepted is kept whole. */
  lemma {:induction false} FilterKeepsAll<T>(xs: seq<T>, keep: T -> bool)
    requires forall i :: 0 <= i < |xs| ==> keep(xs[i])
    ensures Filter(xs, keep) == xs
    decreases |xs|
  {
    if |xs| > 0 {
      FilterKeepsAll(xs[1..], keep);
    }
  }

  /** Filtering twice with the same test is filtering once. */
  lemma FilterIdempotent<T>(xs: seq<T>, keep: T -> bool)
    ensures Filter(Filter(xs, keep), keep) == Filter(xs, keep)
  {
    FilterKeepsAll(Filter(xs, keep), keep);
  }

  // ---------------------------------------------------------------------------
  // Errors
  // ---------------------------------------------------------------------------

  /** What a failed operation throws: an `Error` with its message, or any
      other value (including the missing payload of a pending action). */
  datatype Thrown = ErrorObject(message: string) | OtherValue

  const UnknownError := "An unknown error occurred"

  /** `handleThunkError`: the message of an `Error`, a fixed text otherwise. */
  function HandleThunkError(error: Thrown): (r: string)
    ensures error.ErrorObject? ==> r == error.message
    ensures !error.ErrorObject? ==> r == UnknownError
  {
    match error
    case ErrorObject(message) => message
    case OtherValue => UnknownError
  }

  /** The outcome of an operation: fulfilled with a payload or rejected with
      the thrown value. */
  datatype Outcome<+T> = Fulfilled(payload: T) | Rejected(error: Thrown)

  // ---------------------------------------------------------------------------
  // Duplicate checks
  // ---------------------------------------------------------------------------

  /** Two records count as the same expense when description and date agree;
      amount and category are not compared. */
  predicate SameEntry(existing: Expense, candidate: Expense) {
    existing.description == candidate.description && existing.date == candidate.date
  }

  /** `existing.find(...)` with the duplicate test: the first saved record
      matching the candidate. */
  function FindDuplicate(existing: seq<Expense>, candidate: Expense): (r: Option<Expense>)
    ensures r.None? <==> forall i :: 0 <= i < |existing| ==> !SameEntry(existing[i], candidate)
    ensures r.Some? ==> exists i :: 0 <= i < |existing| && existing[i] == r.value
                         && SameEntry(r.value, candidate)
                         && forall j :: 0 <= j < i ==> !SameEntry(existing[j], candidate)
    decreases |existing|
  {
    if |existing| == 0 then None
    else if SameEntry(existing[0], candidate) then Some(existing[0])
    else
      var r := FindDuplicate(existing[1..], candidate);
      if r.Some? then
        var i :| 0 <= i < |existing| - 1 && existing[1..][i] == r.value
                 && SameEntry(r.value, candidate)
                 && forall j :: 0 <= j < i ==> !SameEntry(existing[1..][j], candidate);
        assert existing[i + 1] == r.value;
        assert forall j :: 0 <= j < i + 1 ==> !SameEntry(existing[j], candidate) by {
          forall j | 0 <= j < i + 1 ensures !SameEntry(existing[j], candidate) {
            if j > 0 {
              assert existing[j] == existing[1..][j - 1];
            }
          }
        }
        r
      else
        assert forall i :: 0 <= i < |existing| ==> !SameEntry(existing[i], candidate) by {
          forall i | 0 <= i < |existing| ensures !SameEntry(existing[i], candidate) {
            if i > 0 {
              assert existing[i] == existing[1..][i - 1];
            }
          }
        }
        r
  }

  /** The candidate repeats a saved record. */
  predicate IsDuplicate(existing: seq<Expense>, candidate: Expense) {
    exists i :: 0 <= i < |existing| && SameEntry(existing[i], candidate)
  }

  /** What `addExpense` fulfils with. */
  datatype AddPayload = Duplicate | Added(expense: Expense)

  /** `addExpense`: rejected when the saved records cannot be read,
      `'DUPLICATE'` when one of them matches, and otherwise the new record,
      once it is written. `written` is what the write throws, if anything,
      `getUserId` included; it only matters when the write happens. */
  function AddExpense(saved: Result<seq<Expense>, Thrown>, written: Option<Thrown>, expense: Expense)
    : (r: Outcome<AddPayload>)
    ensures r.Rejected? <==> saved.Failure? || (!IsDuplicate(saved.value, expense) && written.Some?)
    ensures r.Rejected? ==> r.error == (if saved.Failure? then saved.error else written.value)
    ensures saved.Success? ==> (r == Fulfilled(Duplicate) <==> IsDuplicate(saved.value, expense))
    ensures r.Fulfilled? && r.payload.Added? ==> r.payload.expense == expense
  {
    match saved
    case Failure(e) => Rejected(e)
    case Success(existing) =>
      if FindDuplicate(existing, expense).Some? then Fulfilled(Duplicate)
      else if written.Some? then Rejected(written.value)
      else Fulfilled(Added(expense))
  }

  /** The records of a batch that repeat no saved record, in batch order;
      records repeating each other within the batch are all kept. */
  function NewExpenses(existing: seq<Expense>, batch: seq<Expense>): (r: seq<Expense>)
    ensures |r| <= |batch|
  {
    Filter(batch, (e: Expense) => !IsDuplicate(existing, e))
  }

  /** A record is new exactly when it is in the batch and repeats no saved
      record. */
  lemma NewExpensesMembers(existing: seq<Expense>, batch: seq<Expense>, e: Expense)
    ensures e in NewExpenses(existing, batch) <==> e in batch && !IsDuplicate(existing, e)
  {
    FilterMembers(batch, (e: Expense) => !IsDuplicate(existing, e), e);
  }

  /** The filter works record by record: a batch split in two keeps the new
      records of each part, in order. */
  lemma NewExpensesAppend(existing: seq<Expense>, a: seq<Expense>, b: seq<Expense>)
    ensures NewExpenses(existing, a + b) == NewExpenses(existing, a) + NewExpenses(existing, b)
  {
    FilterAppend(a, b, (e: Expense) => !IsDuplicate(existing, e));
  }

  /** A one-record batch keeps its record exactly when `addExpense` would add
      it. */
  lemma NewExpensesSingle(existing: seq<Expense>, e: Expense)
    ensures NewExpenses(existing, [e]) == (if IsDuplicate(existing, e) then [] else [e])
  {
    assert [e][1..] == [];
  }

  /** Repeats inside a batch are not removed: a new record given twice is
      added twice. */
  lemma NewExpensesKeepsRepeats(existing: seq<Expense>, e: Expense)
    requires !IsDuplicate(existing, e)
    ensures NewExpenses(existing, [e, e]) == [e, e]
  {
    NewExpensesAppend(existing, [e], [e]);
    NewExpensesSingle(existing, e);
    assert [e, e] == [e] + [e];
  }

  /** What `addMultipleExpenses` fulfils with. */
  datatype AddMultiplePayload = DuplicateBatch | AddedBatch(expenses: seq<Expense>)

  /** `addMultipleExpenses`: rejected when the saved records cannot be read,
      `'DUPLICATE'` when no record of the batch is new (an empty batch
      included), and otherwise the new records, which are then written. */
  function AddMultipleExpenses(saved: Result<seq<Expense>, Thrown>, batch: seq<Expense>): (r: Outcome<AddMultiplePayload>)
    ensures saved.Failure? <==> r.Rejected?
    ensures saved.Failure? ==> r.error == saved.error
    ensures saved.Success? ==> (r == Fulfilled(DuplicateBatch) <==> NewExpenses(saved.value, batch) == [])
    ensures saved.Success? && r.Fulfilled? && r.payload.AddedBatch? ==>
              r.payload.expenses == NewExpenses(saved.value, batch) && |r.payload.expenses| > 0
  {
    match saved
    case Failure(e) => Rejected(e)
    case Success(existing) =>
      var unseen := NewExpenses(existing, batch);
      if |unseen| == 0 then Fulfilled(DuplicateBatch) else Fulfilled(AddedBatch(unseen))
  }

  /** With a write that succeeds, adding one record and adding a batch of
      that one record agree: both report the duplicate, or both add it. */
  lemma AddAgreesWithSingleBatch(saved: Result<seq<Expense>, Thrown>, e: Expense)
    ensures var one := AddExpense(saved, None, e);
            var batch := AddMultipleExpenses(saved, [e]);
            && (one.Rejected? <==> batch.Rejected?)
            && (one == Fulfilled(Duplicate) <==> batch == Fulfilled(DuplicateBatch))
            && (one == Fulfilled(Added(e)) <==> batch == Fulfilled(AddedBatch([e])))
  {
    if saved.Success? {
      NewExpensesSingle(saved.value, e);
    }
  }

  /** `addExpensesAndFetch` refetches unless the bulk add reported
      `'DUPLICATE'`; a rejected add is refetched after too. */
  predicate ShouldRefetch(result: Outcome<AddMultiplePayload>) {
    !(result.Fulfilled? && result.payload == DuplicateBatch)
  }

  /** The list is refetched exactly when the read failed or some record of
      the batch was new. */
  lemma RefetchIff(saved: Result<seq<Expense>, Thrown>, batch: seq<Expense>)
    ensures ShouldRefetch(AddMultipleExpenses(saved, batch))
            <==> saved.Failure? || exists e :: e in batch && !IsDuplicate(saved.value, e)
  {
    if saved.Success? {
      var unseen := NewExpenses(saved.value, batch);
      if |unseen| > 0 {
        NewExpensesMembers(saved.value, batch, unseen[0]);
      }
      forall e | e in batch && !IsDuplicate(saved.value, e) ensures e in unseen {
        NewExpensesMembers(saved.value, batch, e);
      }
    }
  }

  // ---------------------------------------------------------------------------
  // The reducer
  // ---------------------------------------------------------------------------

  /** `ExpensesState`. */
  datatype State = State(items: seq<Expense>, status: Status, error: Option<string>)

  const InitialState := State([], Idle, None)

  /** The actions the slice handles, with their payloads; `Unhandled` stands
      for every other action, such as `deleteExpense.rejected`. */
  datatype Action =
    | FetchPending
    | FetchFulfilled(fetched: seq<Expense>)
    | FetchRejected(fetchError: Thrown)
    | AddFulfilled
    | AddRejected(addError: Thrown)
    | UpdateFulfilled(updated: Expense)
    | UpdateRejected(updateError: Thrown)
    | DeleteFulfilled(deletedId: string)
    | ClearPending
    | ClearFulfilled
    | ClearRejected(clearError: Thrown)
    | AddMultipleFulfilled
    | AddMultipleRejected(addMultipleError: Thrown)
    | Unhandled

  /** `findIndex` on the ids: the first position holding `id`, or -1. */
  function FindIndex(items: seq<Expense>, id: Option<string>): (r: int)
    ensures -1 <= r < |items|
    ensures r >= 0 ==> items[r].id == id
    ensures forall j :: 0 <= j < |items| && (r == -1 || j < r) ==> items[j].id != id
    decreases |items|
  {
    if |items| == 0 then -1
    else if items[0].id == id then 0
    else
      var r := FindIndex(items[1..], id);
      assert forall j :: 1 <= j < |items| ==> items[j] == items[1..][j - 1];
      if r == -1 then -1 else r + 1
  }

  /** `state.items[index] = payload`. With index -1 the assignment creates a
      property named "-1" that is not an element, so the list is unchanged. */
  function ReplaceAt(items: seq<Expense>, index: int, e: Expense): (r: seq<Expense>)
    requires -1 <= index < |items|
    ensures |r| == |items|
  {
    if index == -1 then items else items[index := e]
  }

  /** The items a fulfilled delete keeps: those with a different id. */
  function WithoutId(items: seq<Expense>, id: string): (r: seq<Expense>)
    ensures |r| <= |items|
  {
    Filter(items, (e: Expense) => e.id != Some(id))
  }

  /** The slice's `extraReducers`. Only the four list-carrying actions touch
      the list; a rejection sets status `failed` and the error text of its
      thrown value; every handled action leaves a status other than `idle`. */
  function Reduce(s: State, a: Action): (r: State)
    ensures a.Unhandled? ==> r == s
    ensures !ChangesItems(a) ==> r.items == s.items
    ensures RejectionOf(a).Some? ==> r.status == Failed && r.error == Some(HandleThunkError(RejectionOf(a).value))
    ensures !a.Unhandled? ==> r.status != Idle
  {
    match a
    case FetchPending => s.(status := Loading, error := None)
    case FetchFulfilled(fetched) => s.(status := Succeeded, items := fetched)
    case FetchRejected(e) => s.(status := Failed, error := Some(HandleThunkError(e)))
    case AddFulfilled => s.(error := None, status := Succeeded)
    case AddRejected(e) => s.(error := Some(HandleThunkError(e)), status := Failed)
    case UpdateFulfilled(updated) =>
      var index := FindIndex(s.items, updated.id);
      s.(items := ReplaceAt(s.items, index, updated), error := None, status := Succeeded)
    case UpdateRejected(e) => s.(error := Some(HandleThunkError(e)), status := Failed)
    case DeleteFulfilled(id) => s.(items := WithoutId(s.items, id), error := None, status := Succeeded)
    case ClearPending => s.(error := Some(HandleThunkError(OtherValue)), status := Loading)
    case ClearFulfilled => s.(items := [], status := Succeeded)
    case ClearRejected(e) => s.(error := Some(HandleThunkError(e)), status := Failed)
    case AddMultipleFulfilled => s.(error := None, status := Succeeded)
    case AddMultipleRejected(e) => s.(error := Some(HandleThunkError(e)), status := Failed)
    case Unhandled => s
  }

  /** The actions that carry a list: only they touch `items`. */
  predicate ChangesItems(a: Action) {
    a.FetchFulfilled? || a.UpdateFulfilled? || a.DeleteFulfilled? || a.ClearFulfilled?
  }

  /** The thrown value of a rejected action. */
  function RejectionOf(a: Action): Option<Thrown> {
    match a
    case FetchRejected(e) => Some(e)
    case AddRejected(e) => Some(e)
    case UpdateRejected(e) => Some(e)
    case ClearRejected(e) => Some(e)
    case AddMultipleRejected(e) => Some(e)
    case _ => None
  }

  /** The status an action leaves depends on the action alone; only an
      unhandled action keeps the previous status. */
  lemma StatusDependsOnActionOnly(s1: State, s2: State, a: Action)
    requires !a.Unhandled?
    ensures Reduce(s1, a).status == Reduce(s2, a).status
    ensures Reduce(s1, a).status != Idle
  {
  }

  /** `clearExpenses.pending` has no payload, so it records the fixed
      unknown-error text. */
  lemma ClearPendingSetsUnknownError(s: State)
    ensures Reduce(s, ClearPending).error == Some(UnknownError)
    ensures Reduce(s, ClearPending).status == Loading
  {
  }

  /** A fulfilled fetch replaces the list wholesale; a fulfilled clear empties
      it; neither touches the error. */
  lemma FetchAndClearSpec(s: State, fetched: seq<Expense>)
    ensures Reduce(s, FetchFulfilled(fetched)) == State(fetched, Succeeded, s.error)
    ensures Reduce(s, ClearFulfilled) == State([], Succeeded, s.error)
  {
  }

  /** A fulfilled delete removes exactly the items with the id, keeps the
      others in order, and records success. */
  lemma DeleteSpec(s: State, id: string)
    ensures var r := Reduce(s, DeleteFulfilled(id));
            && (forall e :: e in r.items <==> e in s.items && e.id != Some(id))
            && r.status == Succeeded && r.error == None
  {
    forall e ensures e in WithoutId(s.items, id) <==> e in s.items && e.id != Some(id) {
      FilterMembers(s.items, (e: Expense) => e.id != Some(id), e);
    }
  }

  /** Deleting works item by item, so the kept items stay in order. */
  lemma DeleteKeepsOrder(a: seq<Expense>, b: seq<Expense>, id: string)
    ensures WithoutId(a + b, id) == WithoutId(a, id) + WithoutId(b, id)
  {
    FilterAppend(a, b, (e: Expense) => e.id != Some(id));
  }

  /** Deleting the same id twice is deleting it once. */
  lemma DeleteIdempotent(s: State, id: string)
    ensures Reduce(Reduce(s, DeleteFulfilled(id)), DeleteFulfilled(id)) == Reduce(s, DeleteFulfilled(id))
  {
    FilterIdempotent(s.items, (e: Expense) => e.id != Some(id));
  }

  /** A fulfilled update replaces the first item with the payload's id and
      leaves the length and every other item as they were. */
  lemma UpdateSpec(s: State, updated: Expense)
    requires exists i :: 0 <= i < |s.items| && s.items[i].id == updated.id
    ensures var r := Reduce(s, UpdateFulfilled(updated));
            && |r.items| == |s.items|
            && (exists i :: 0 <= i < |s.items| && s.items[i].id == updated.id && r.items[i] == updated
                  && forall j :: 0 <= j < |s.items| && j != i ==> r.items[j] == s.items[j])
            && r.status == Succeeded && r.error == None
  {
    var i := FindIndex(s.items, updated.id);
    assert i != -1;
  }

  /** An update whose id is not in the list leaves the list as it was. */
  lemma UpdateAbsentId(s: State, updated: Expense)
    requires forall i :: 0 <= i < |s.items| ==> s.items[i].id != updated.id
    ensures Reduce(s, UpdateFulfilled(updated)).items == s.items
  {
  }
}
