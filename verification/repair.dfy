/**
 * The point repair of the source file: every row carrying one transaction id is
 * rewritten with a new description. The file is modelled by the records it holds.
 */
module Repair {
  import opened Wrappers
  import opened Guids
  import opened Transactions

  /** Why a repair did not happen. */
  datatype RepairError =
    | NotFound(id: Guid)    // no row carries the id; the file is left as it was
    | WriteFailed           // the file system refused the rewrite

  /** `FirstOrDefault(t => t.TransactionId == id)`: the first row carrying `id`. */
  function FirstWithId(ts: seq<Transaction>, id: Guid): (r: Option<nat>)
    ensures r.None? <==> forall i :: 0 <= i < |ts| ==> ts[i].transactionId != id
    ensures r.Some? ==> r.value < |ts| && ts[r.value].transactionId == id
    ensures r.Some? ==> forall j :: 0 <= j < r.value ==> ts[j].transactionId != id
  {
    if |ts| == 0 then None
    else if ts[0].transactionId == id then Some(0)
    else match FirstWithId(ts[1..], id)
      case None => None
      case Some(k) => Some(k + 1)
  }

  /** Writes `replacement` in place of every row carrying `id` and every other row as it was. */
  function Rewrite(ts: seq<Transaction>, id: Guid, replacement: Transaction): (r: seq<Transaction>)
    ensures |r| == |ts|
    ensures forall i :: 0 <= i < |ts| ==> r[i] == (if ts[i].transactionId == id then replacement else ts[i])
  {
    if |ts| == 0 then []
    else [if ts[0].transactionId == id then replacement else ts[0]] + Rewrite(ts[1..], id, replacement)
  }

  /**
   * `RecreateTransactionAsync` without its file handling: fails when no row carries
   * `id`; otherwise copies the first such row with `newDescription` and writes the
   * copy over every row carrying `id`.
   */
  function Recreate(ts: seq<Transaction>, id: Guid, newDescription: string): (r: Result<seq<Transaction>, RepairError>)
    ensures r.Failure? <==> forall i :: 0 <= i < |ts| ==> ts[i].transactionId != id
    ensures r.Failure? ==> r.error == NotFound(id)
    ensures r.Success? ==> |r.value| == |ts|
    ensures r.Success? ==> forall i :: 0 <= i < |ts| && ts[i].transactionId != id ==> r.value[i] == ts[i]
    ensures r.Success? ==>
      exists f :: (0 <= f < |ts| && ts[f].transactionId == id
        && (forall j :: 0 <= j < f ==> ts[j].transactionId != id)
        && forall i :: 0 <= i < |ts| && ts[i].transactionId == id ==> r.value[i] == ts[f].(description := newDescription))
  {
    match FirstWithId(ts, id)
    case None => Failure(NotFound(id))
    case Some(f) =>
      var original := ts[f];
      var recreated := Transaction(id, original.userId, original.date, original.amount,
                                   original.category, newDescription, original.merchant);
      Success(Rewrite(ts, id, recreated))
  }

  /** Repairing the same id twice with the same description is the same as repairing it once. */
  lemma RecreateIdempotent(ts: seq<Transaction>, id: Guid, newDescription: string)
    requires Recreate(ts, id, newDescription).Success?
    ensures Recreate(Recreate(ts, id, newDescription).value, id, newDescription)
         == Recreate(ts, id, newDescription)
  {
    var f := FirstWithId(ts, id).value;
    var recreated := ts[f].(description := newDescription);
    assert Recreate(ts, id, newDescription) == Success(Rewrite(ts, id, recreated));
    var once := Rewrite(ts, id, recreated);
    FirstWithIdStable(ts, once, id);
    assert once[f] == recreated;
    assert recreated.(description := newDescription) == recreated;
    RewriteFixed(once, id, recreated);
  }

  /** Rewriting rows that already hold the replacement changes nothing. */
  lemma RewriteFixed(ts: seq<Transaction>, id: Guid, replacement: Transaction)
    requires forall i :: 0 <= i < |ts| && ts[i].transactionId == id ==> ts[i] == replacement
    ensures Rewrite(ts, id, replacement) == ts
  {
  }

  /**
   * The repair with its file write: `writeFails` says whether the file system refuses
   * the rewrite before the original file is deleted, in which case the original stays.
   */
  function RepairFile(ts: seq<Transaction>, id: Guid, newDescription: string, writeFails: bool)
    : (r: Result<seq<Transaction>, RepairError>)
    ensures r.Success? <==> !writeFails && Recreate(ts, id, newDescription).Success?
    ensures r.Success? ==> r == Recreate(ts, id, newDescription)
  {
    match Recreate(ts, id, newDescription)
    case Failure(e) => Failure(e)
    case Success(rewritten) => if writeFails then Failure(WriteFailed) else Success(rewritten)
  }

  /**
   * `b` is `a` after any number of repairs writing `desc`: the same rows in the same order
   * with the same ids, each either untouched or the copy, with `desc`, of the first row
   * carrying its id.
   */
  ghost predicate RepairedFrom(a: seq<Transaction>, b: seq<Transaction>, desc: string)
  {
    && |a| == |b|
    && forall i :: 0 <= i < |a| ==>
         && b[i].transactionId == a[i].transactionId
         && (b[i] == a[i] || b[i] == a[FirstWithId(a, a[i].transactionId).value].(description := desc))
  }

  lemma RepairedFromRefl(a: seq<Transaction>, desc: string)
    ensures RepairedFrom(a, a, desc)
  {
  }

  /** One successful repair is a repair in the sense of `RepairedFrom`. */
  lemma RecreateRepairs(a: seq<Transaction>, id: Guid, desc: string)
    requires Recreate(a, id, desc).Success?
    ensures RepairedFrom(a, Recreate(a, id, desc).value, desc)
  {
    var b := Recreate(a, id, desc).value;
    forall i | 0 <= i < |a|
      ensures b[i].transactionId == a[i].transactionId
      ensures b[i] == a[i] || b[i] == a[FirstWithId(a, a[i].transactionId).value].(description := desc)
    {
      if a[i].transactionId == id {
        assert FirstWithId(a, id).Some?;
      }
    }
  }

  /** Rows keeping their ids in place have their first occurrences in the same places. */
  lemma FirstWithIdStable(a: seq<Transaction>, b: seq<Transaction>, id: Guid)
    requires |a| == |b| && forall i :: 0 <= i < |a| ==> b[i].transactionId == a[i].transactionId
    ensures FirstWithId(b, id) == FirstWithId(a, id)
  {
    if |a| > 0 {
      FirstWithIdStable(a[1..], b[1..], id);
    }
  }

  /** Repairs compose. */
  lemma {:induction false} RepairedFromTrans(a: seq<Transaction>, b: seq<Transaction>, c: seq<Transaction>, desc: string)
    requires RepairedFrom(a, b, desc) && RepairedFrom(b, c, desc)
    ensures RepairedFrom(a, c, desc)
  {
    forall i | 0 <= i < |a|
      ensures c[i].transactionId == a[i].transactionId
      ensures c[i] == a[i] || c[i] == a[FirstWithId(a, a[i].transactionId).value].(description := desc)
    {
      var id := a[i].transactionId;
      FirstWithIdStable(a, b, id);
      var f := FirstWithId(a, id).value;
      assert b[f].transactionId == a[f].transactionId;
      assert FirstWithId(a, a[f].transactionId).value == f;
    }
  }

  /** Repairing the only row of a file replaces its description and nothing else. */
  lemma RecreateSingle(t: Transaction, desc: string)
    ensures Recreate([t], t.transactionId, desc) == Success([t.(description := desc)])
  {
    assert FirstWithId([t], t.transactionId) == Some(0);
    assert Rewrite([t], t.transactionId, t.(description := desc)) == [t.(description := desc)];
  }
}
