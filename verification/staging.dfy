/** The QC point's staging list: photos picked locally, assigned to a
    customer, then uploaded one by one. Each handler is a pure transition of
    the list; the upload request itself is an oracle answering per item. */
module Staging {
  import opened Common
  import Grouping

  datatype Status = Idle | Uploading | Done | Error

  /** A staged photo: a random local id, the file, the chosen customer (the
      select's value, so possibly "") and its upload status. */
  datatype Staged = Staged(id: string, file: Grouping.File, customerId: Option<string>, status: Status)

  /** A picked file with the random id it is given on selection. */
  datatype Picked = Picked(id: string, file: Grouping.File)

  /** How the `/api/upload` request ended. */
  datatype Response = Ok | NotOk | Threw

  /** The staging entry a freshly picked file becomes. */
  function Fresh(p: Picked): Staged {
    Staged(p.id, p.file, None, Idle)
  }

  /** `handleFileSelect`: the new entries go after the existing ones, each
      IDLE and without a customer; an empty selection changes nothing. */
  function SelectFiles(items: seq<Staged>, picked: seq<Picked>): (r: seq<Staged>)
    ensures |r| == |items| + |picked|
    ensures r[..|items|] == items
    ensures forall k :: 0 <= k < |picked| ==>
              r[|items| + k].id == picked[k].id && r[|items| + k].file == picked[k].file
              && r[|items| + k].status == Idle && r[|items| + k].customerId == None
  {
    if |picked| == 0 then items
    else items + seq(|picked|, k requires 0 <= k < |picked| => Fresh(picked[k]))
  }

  /** `assignCustomer`: entries with the given id get the customer; every
      other entry, and every other field, is unchanged. */
  function AssignCustomer(items: seq<Staged>, itemId: string, customerId: string): (r: seq<Staged>)
    ensures |r| == |items|
    ensures forall k :: 0 <= k < |items| && items[k].id == itemId ==>
              r[k].customerId == Some(customerId)
              && r[k].id == items[k].id && r[k].file == items[k].file && r[k].status == items[k].status
    ensures forall k :: 0 <= k < |items| && items[k].id != itemId ==> r[k] == items[k]
  {
    seq(|items|, k requires 0 <= k < |items| =>
      if items[k].id == itemId then items[k].(customerId := Some(customerId)) else items[k])
  }

  /** `assignAll`: every IDLE entry gets the customer; the others are untouched. */
  function AssignAll(items: seq<Staged>, customerId: string): (r: seq<Staged>)
    ensures |r| == |items|
    ensures forall k :: 0 <= k < |items| && items[k].status == Idle ==>
              r[k] == items[k].(customerId := Some(customerId))
    ensures forall k :: 0 <= k < |items| && items[k].status != Idle ==> r[k] == items[k]
  {
    seq(|items|, k requires 0 <= k < |items| =>
      if items[k].status == Idle then items[k].(customerId := Some(customerId)) else items[k])
  }

  /** `removeItem`: `filter(item => item.id !== itemId)`. */
  function RemoveItem(items: seq<Staged>, itemId: string): (r: seq<Staged>)
    ensures forall x :: x in r <==> x in items && x.id != itemId
    ensures |r| <= |items|
  {
    if items == [] then []
    else (if items[0].id != itemId then [items[0]] else []) + RemoveItem(items[1..], itemId)
  }

  /** Removal distributes over concatenation: the kept entries of a list are
      the kept entries of each part, in order. With `RemoveItemSingle` this
      says the result is exactly the subsequence of entries whose id differs. */
  lemma {:induction false} RemoveItemConcat(a: seq<Staged>, b: seq<Staged>, itemId: string)
    ensures RemoveItem(a + b, itemId) == RemoveItem(a, itemId) + RemoveItem(b, itemId)
    decreases |a|
  {
    if a == [] {
      assert a + b == b;
    } else {
      assert (a + b)[0] == a[0];
      assert (a + b)[1..] == a[1..] + b;
      RemoveItemConcat(a[1..], b, itemId);
    }
  }

  lemma RemoveItemSingle(x: Staged, itemId: string)
    ensures RemoveItem([x], itemId) == (if x.id == itemId then [] else [x])
  {
    assert [x][1..] == [];
  }

  /** Removing an id that no entry carries leaves the list as it was. */
  lemma {:induction false} RemoveAbsentId(items: seq<Staged>, itemId: string)
    requires forall k :: 0 <= k < |items| ==> items[k].id != itemId
    ensures RemoveItem(items, itemId) == items
    decreases |items|
  {
    if items != [] {
      RemoveAbsentId(items[1..], itemId);
      assert items == [items[0]] + items[1..];
    }
  }

  /** Every entry carrying `itemId` gets status `s`; nothing else changes. */
  function SetStatus(items: seq<Staged>, itemId: string, s: Status): (r: seq<Staged>)
    ensures |r| == |items|
    ensures forall k :: 0 <= k < |items| ==>
              r[k] == if items[k].id == itemId then items[k].(status := s) else items[k]
  {
    seq(|items|, k requires 0 <= k < |items| =>
      if items[k].id == itemId then items[k].(status := s) else items[k])
  }

  /** The guard of `uploadItem`, read on the entry as it was when the handler
      was called: IDLE with a truthy customer. */
  predicate CanUpload(item: Staged) {
    item.status == Idle && PresentText(item.customerId)
  }

  /** The status an upload settles to. */
  function Settled(resp: Response): (s: Status)
    ensures s == Done <==> resp == Ok
    ensures s == Error <==> resp != Ok
  {
    if resp == Ok then Done else Error
  }

  /** The list states `uploadItem` commits: none when its guard fails, else
      the list with the entry UPLOADING and then the list with it settled. */
  datatype UploadRun = NoOp | Ran(uploading: seq<Staged>, settled: seq<Staged>)

  function UploadItem(items: seq<Staged>, item: Staged, resp: Response): (run: UploadRun)
    ensures run.NoOp? <==> !CanUpload(item)
    ensures run.Ran? ==> |run.uploading| == |items| && |run.settled| == |items|
    ensures run.Ran? ==> forall k :: 0 <= k < |items| && items[k].id == item.id ==>
              run.uploading[k] == items[k].(status := Uploading)
              && run.settled[k] == items[k].(status := Settled(resp))
    ensures run.Ran? ==> forall k :: 0 <= k < |items| && items[k].id != item.id ==>
              run.uploading[k] == items[k] && run.settled[k] == items[k]
  {
    if !CanUpload(item) then NoOp
    else
      var up := SetStatus(items, item.id, Uploading);
      Ran(up, SetStatus(up, item.id, Settled(resp)))
  }

  /** The list after `uploadItem` has finished. */
  function AfterUpload(items: seq<Staged>, item: Staged, resp: Response): seq<Staged> {
    match UploadItem(items, item, resp)
    case NoOp => items
    case Ran(_, settled) => settled
  }

  /** The status moves a staged photo may make. */
  predicate Transition(from: Status, to: Status) {
    || (from == Idle && to == Uploading)
    || (from == Uploading && (to == Done || to == Error))
  }

  /** Uploading the entry at `k`, as it currently is, walks it through
      IDLE, UPLOADING, then DONE on an ok response and ERROR otherwise. */
  lemma UploadWalksStatus(items: seq<Staged>, k: nat, resp: Response)
    requires k < |items| && CanUpload(items[k])
    ensures UploadItem(items, items[k], resp).Ran?
    ensures var run := UploadItem(items, items[k], resp);
            Transition(items[k].status, run.uploading[k].status)
            && Transition(run.uploading[k].status, run.settled[k].status)
            && (run.settled[k].status == Done <==> resp == Ok)
  {
  }

  /** The entries `handleLinkAll` uploads: IDLE with a truthy customer. */
  function LinkAllSelection(items: seq<Staged>): (sel: seq<Staged>)
    ensures forall x :: x in sel <==> x in items && CanUpload(x)
    ensures forall j :: 0 <= j < |sel| ==> CanUpload(sel[j])
    ensures |sel| <= |items|
  {
    if items == [] then []
    else (if CanUpload(items[0]) then [items[0]] else []) + LinkAllSelection(items[1..])
  }

  lemma {:induction false} LinkAllSelectionConcat(a: seq<Staged>, b: seq<Staged>)
    ensures LinkAllSelection(a + b) == LinkAllSelection(a) + LinkAllSelection(b)
    decreases |a|
  {
    if a == [] {
      assert a + b == b;
    } else {
      assert (a + b)[0] == a[0];
      assert (a + b)[1..] == a[1..] + b;
      LinkAllSelectionConcat(a[1..], b);
    }
  }

  /** The uploads of `handleLinkAll`, one after the other, each on the list
      the previous one left; the oracle answers per entry id. */
  function UploadEach(items: seq<Staged>, todo: seq<Staged>, respOf: string -> Response): (r: seq<Staged>)
    ensures |r| == |items|
    decreases |todo|
  {
    if todo == [] then items
    else UploadEach(AfterUpload(items, todo[0], respOf(todo[0].id)), todo[1..], respOf)
  }

  /** `handleLinkAll`: nothing happens (an alert is shown) when no entry
      qualifies; otherwise the qualifying entries are uploaded in order. */
  function LinkAll(items: seq<Staged>, respOf: string -> Response): (r: seq<Staged>)
    ensures LinkAllSelection(items) == [] ==> r == items
  {
    var sel := LinkAllSelection(items);
    if |sel| == 0 then items else UploadEach(items, sel, respOf)
  }

  /** Ids of a list of entries. */
  function Ids(s: seq<Staged>): set<string> {
    set j | 0 <= j < |s| :: s[j].id
  }

  /** Uploading a list of qualifying snapshots settles exactly the entries
      whose id is among them, each by its own response, and leaves all other
      entries unchanged. */
  lemma {:induction false} UploadEachSettles(items: seq<Staged>, todo: seq<Staged>, respOf: string -> Response)
    requires forall j :: 0 <= j < |todo| ==> CanUpload(todo[j])
    ensures forall k :: 0 <= k < |items| ==>
              UploadEach(items, todo, respOf)[k]
                == if items[k].id in Ids(todo) then items[k].(status := Settled(respOf(items[k].id)))
                   else items[k]
    decreases |todo|
  {
    if todo != [] {
      var x := todo[0];
      var next := AfterUpload(items, x, respOf(x.id));
      UploadEachSettles(next, todo[1..], respOf);
      assert Ids(todo) == {x.id} + Ids(todo[1..]) by {
        forall j | 0 <= j < |todo[1..]| ensures todo[1..][j] == todo[j + 1] { }
        assert forall i :: i in Ids(todo) ==> i == x.id || i in Ids(todo[1..]);
        assert forall i :: i in Ids(todo[1..]) ==> i in Ids(todo);
        assert x.id == todo[0].id;
      }
      forall j | 0 <= j < |todo[1..]| ensures CanUpload(todo[1..][j]) {
        assert todo[1..][j] == todo[j + 1];
      }
    }
  }

  /** `handleLinkAll` settles exactly the entries whose id belongs to a
      qualifying entry; all other entries are unchanged. */
  lemma LinkAllSettles(items: seq<Staged>, respOf: string -> Response)
    ensures forall k :: 0 <= k < |items| ==>
              LinkAll(items, respOf)[k]
                == if items[k].id in Ids(LinkAllSelection(items))
                   then items[k].(status := Settled(respOf(items[k].id)))
                   else items[k]
  {
    var sel := LinkAllSelection(items);
    if |sel| > 0 {
      UploadEachSettles(items, sel, respOf);
    }
  }

  /** With distinct ids, the entries `handleLinkAll` settles are exactly the
      qualifying ones. */
  lemma LinkAllSettlesQualifying(items: seq<Staged>, respOf: string -> Response)
    requires forall i, j :: 0 <= i < j < |items| ==> items[i].id != items[j].id
    ensures forall k :: 0 <= k < |items| ==>
              LinkAll(items, respOf)[k]
                == if CanUpload(items[k]) then items[k].(status := Settled(respOf(items[k].id)))
                   else items[k]
  {
    LinkAllSettles(items, respOf);
    var sel := LinkAllSelection(items);
    forall k | 0 <= k < |items|
      ensures items[k].id in Ids(sel) <==> CanUpload(items[k])
    {
      if CanUpload(items[k]) {
        assert items[k] in sel;
        var j :| 0 <= j < |sel| && sel[j] == items[k];
        assert items[k].id in Ids(sel);
      }
      if items[k].id in Ids(sel) {
        var j :| 0 <= j < |sel| && sel[j].id == items[k].id;
        assert sel[j] in items;
        var m :| 0 <= m < |items| && items[m] == sel[j];
        assert m == k;
      }
    }
  }
}
