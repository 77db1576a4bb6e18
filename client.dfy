/**
 * The operations of the client that interpret answers: the authentication
 * step of `_connect`, the answer step of `DownloadFileAttachmentByItemId`,
 * and the answer step of `GetSecretById`, whose loop turns the wire list of
 * secret items into a mapping keyed by field name and fetches the attachment
 * of every file field. The remote calls are parameters: `download(secretId,
 * itemId)` is the result record DownloadFileAttachmentByItemId answers with.
 */
module Client {
  import opened Wrappers
  import opened JsText
  import opened Wire
  import opened Validator

  /** The answer step of `_connect`: the session token, or the message the connection rejects with. */
  function Connect(result: AuthenticateResult): (r: Result<string, string>)
    requires result.Errors.Some? || result.Token.Some?
    ensures r.Success? <==> result.Errors.None? && |result.Token.value| > 0
    ensures r.Success? ==> r.value == result.Token.value
    ensures r.Failure? ==> Some(r.error) == IsError(Answer(Some(result), None, None))
  {
    match IsError(Answer(Some(result), None, None))
    case Some(thrown) => ExceptionIdempotent(thrown); Failure(Exception(thrown))
    case None => Success(result.Token.value)
  }

  /** The answer step of `DownloadFileAttachmentByItemId`: the result record, or the message it rejects with. */
  function DownloadFileAttachmentByItemId(result: DownloadFileAttachmentByItemIdResult)
    : (r: Result<DownloadFileAttachmentByItemIdResult, string>)
    ensures r.Success? <==> result.Errors.None?
    ensures r.Success? ==> r.value == result
    ensures r.Failure? ==> r.error == Exception(Trim(Join(result.Errors.value, ",")))
  {
    DownloadErrorsOnly(result);
    match IsError(Answer(None, None, Some(result)))
    case Some(thrown) => Failure(thrown)
    case None => Success(result)
  }

  /** An item of a secret as the normalised secret holds it: a file field carries its downloaded attachment. */
  function Resolve(secretId: int, item: SecretItem, download: (int, int) -> DownloadFileAttachmentByItemIdResult)
    : (r: SecretItem)
    ensures r == item.(Value := r.Value)
    ensures item.IsFile ==> r.Value == Some(download(secretId, item.Id))
    ensures !item.IsFile ==> r == item
  {
    if item.IsFile then item.(Value := Some(download(secretId, item.Id))) else item
  }

  function ResolveAll(secretId: int, items: seq<SecretItem>, download: (int, int) -> DownloadFileAttachmentByItemIdResult)
    : (r: seq<SecretItem>)
    ensures |r| == |items|
    ensures forall i :: 0 <= i < |items| ==> r[i] == Resolve(secretId, items[i], download)
  {
    seq(|items|, i requires 0 <= i < |items| => Resolve(secretId, items[i], download))
  }

  /** The download of `item` is attempted and rejected. */
  predicate DownloadFails(secretId: int, item: SecretItem, download: (int, int) -> DownloadFileAttachmentByItemIdResult)
  {
    item.IsFile && download(secretId, item.Id).Errors.Some?
  }

  /** The message a rejected download of `item` makes the normalisation fail with. */
  function Rejection(secretId: int, item: SecretItem, download: (int, int) -> DownloadFileAttachmentByItemIdResult)
    : (message: string)
    requires DownloadFails(secretId, item, download)
  {
    Exception(Trim(Join(download(secretId, item.Id).Errors.value, ",")))
  }

  /** The position of the first file item, in list order, whose download is rejected. */
  function FirstRejected(secretId: int, items: seq<SecretItem>, download: (int, int) -> DownloadFileAttachmentByItemIdResult)
    : (r: Option<int>)
    ensures r.Some? ==> 0 <= r.value < |items| && DownloadFails(secretId, items[r.value], download)
    decreases |items|
  {
    if |items| == 0 then None
    else
      var earlier := FirstRejected(secretId, items[..|items| - 1], download);
      if earlier.Some? then earlier
      else if DownloadFails(secretId, items[|items| - 1], download) then Some(|items| - 1)
      else None
  }

  /** Items keyed by field name, a later item replacing an earlier one of the same name. */
  function ItemsByName(items: seq<SecretItem>): (m: map<string, SecretItem>)
    decreases |items|
  {
    if |items| == 0 then map[]
    else
      var last := items[|items| - 1];
      ItemsByName(items[..|items| - 1])[last.FieldName := last]
  }

  /** What normalising the wire list `raw` of the secret `secretId` produces. */
  function NormalizedItems(secretId: int, raw: seq<SecretItem>, download: (int, int) -> DownloadFileAttachmentByItemIdResult)
    : (r: Result<map<string, SecretItem>, string>)
  {
    match FirstRejected(secretId, raw, download)
    case Some(i) => Failure(Rejection(secretId, raw[i], download))
    case None => Success(ItemsByName(ResolveAll(secretId, raw, download)))
  }

  function FieldNames(items: seq<SecretItem>): (names: set<string>)
  {
    set i | 0 <= i < |items| :: items[i].FieldName
  }

  /** No later item of `items` has the field name of `items[i]`. */
  predicate LastNamed(items: seq<SecretItem>, i: int)
    requires 0 <= i < |items|
  {
    forall j :: i < j < |items| ==> items[j].FieldName != items[i].FieldName
  }

  /**
   * The loop of `GetSecretById`: fetch the attachment of every file item in
   * turn and collect all items by field name.
   */
  method NormalizeItems(secretId: int, raw: seq<SecretItem>, download: (int, int) -> DownloadFileAttachmentByItemIdResult)
    returns (r: Result<map<string, SecretItem>, string>)
    ensures r == NormalizedItems(secretId, raw, download)
  {
    var items: map<string, SecretItem> := map[];
    for i := 0 to |raw|
      invariant FirstRejected(secretId, raw[..i], download).None?
      invariant items == ItemsByName(ResolveAll(secretId, raw[..i], download))
    {
      var item := raw[i];
      ItemsStep(secretId, raw, i, download);
      RejectionStep(secretId, raw, i, download);
      if item.IsFile {
        var value := DownloadFileAttachmentByItemId(download(secretId, item.Id));
        if value.Failure? {
          AbortedAt(secretId, raw, i, download);
          return Failure(value.error);
        }
        item := item.(Value := Some(value.value));
      }
      items := items[item.FieldName := item];
    }
    assert raw[..|raw|] == raw;
    return Success(items);
  }

  /** How the keyed mapping grows by one item; the loop of NormalizeItems relies on it. */
  lemma ItemsStep(secretId: int, raw: seq<SecretItem>, i: int, download: (int, int) -> DownloadFileAttachmentByItemIdResult)
    requires 0 <= i < |raw|
    ensures ItemsByName(ResolveAll(secretId, raw[..i + 1], download))
      == ItemsByName(ResolveAll(secretId, raw[..i], download))[raw[i].FieldName := Resolve(secretId, raw[i], download)]
  {
    var p := raw[..i + 1];
    var rp := ResolveAll(secretId, p, download);
    assert rp[..i] == ResolveAll(secretId, raw[..i], download);
  }

  /** How the first rejection grows by one item; the loop of NormalizeItems relies on it. */
  lemma RejectionStep(secretId: int, raw: seq<SecretItem>, i: int, download: (int, int) -> DownloadFileAttachmentByItemIdResult)
    requires 0 <= i < |raw|
    ensures FirstRejected(secretId, raw[..i + 1], download) ==
      if FirstRejected(secretId, raw[..i], download).Some? then FirstRejected(secretId, raw[..i], download)
      else if DownloadFails(secretId, raw[i], download) then Some(i)
      else None
  {
    assert raw[..i + 1][..i] == raw[..i];
  }

  /** A rejection of the download of `raw[i]`, with none before it, is the outcome of the whole list. */
  lemma AbortedAt(secretId: int, raw: seq<SecretItem>, i: int, download: (int, int) -> DownloadFileAttachmentByItemIdResult)
    requires 0 <= i < |raw| && DownloadFails(secretId, raw[i], download)
    requires FirstRejected(secretId, raw[..i], download).None?
    ensures FirstRejected(secretId, raw, download) == Some(i)
  {
    RejectionStep(secretId, raw, i, download);
    FirstRejectedKept(secretId, raw[..i + 1], raw[i + 1..], download);
    assert raw[..i + 1] + raw[i + 1..] == raw;
  }

  /** Once a download has been rejected, later items do not change the outcome. */
  lemma {:induction false} FirstRejectedKept(secretId: int, p: seq<SecretItem>, q: seq<SecretItem>, download: (int, int) -> DownloadFileAttachmentByItemIdResult)
    requires FirstRejected(secretId, p, download).Some?
    ensures FirstRejected(secretId, p + q, download) == FirstRejected(secretId, p, download)
    decreases |q|
  {
    if |q| == 0 {
      assert p + q == p;
    } else {
      var q' := q[..|q| - 1];
      FirstRejectedKept(secretId, p, q', download);
      assert (p + q)[..|p + q| - 1] == p + q';
    }
  }

  /** The keys of the mapping are exactly the field names of the list. */
  lemma {:induction false} ItemsByNameKeys(items: seq<SecretItem>)
    ensures ItemsByName(items).Keys == FieldNames(items)
    decreases |items|
  {
    if |items| > 0 {
      var p := items[..|items| - 1];
      ItemsByNameKeys(p);
      assert FieldNames(items) == FieldNames(p) + {items[|items| - 1].FieldName} by {
        forall n | n in FieldNames(items) ensures n in FieldNames(p) + {items[|items| - 1].FieldName} {
          var k :| 0 <= k < |items| && items[k].FieldName == n;
          if k < |items| - 1 { assert p[k] == items[k]; }
        }
        forall n | n in FieldNames(p) ensures n in FieldNames(items) {
          var k :| 0 <= k < |p| && p[k].FieldName == n;
          assert items[k] == p[k];
        }
      }
    }
  }

  /** Each key maps to the last item carrying that field name. */
  lemma {:induction false} ItemsByNameLastWins(items: seq<SecretItem>, i: int)
    requires 0 <= i < |items| && LastNamed(items, i)
    ensures items[i].FieldName in ItemsByName(items)
    ensures ItemsByName(items)[items[i].FieldName] == items[i]
    decreases |items|
  {
    if i < |items| - 1 {
      var p := items[..|items| - 1];
      assert p[i] == items[i];
      assert LastNamed(p, i) by {
        forall j | i < j < |p| ensures p[j].FieldName != p[i].FieldName {
          assert p[j] == items[j];
        }
      }
      ItemsByNameLastWins(p, i);
    }
  }

  /** With distinct field names (as the service delivers them) no item is lost. */
  lemma {:induction false} DistinctNamesKeepEveryItem(items: seq<SecretItem>)
    requires forall i, j :: 0 <= i < j < |items| ==> items[i].FieldName != items[j].FieldName
    ensures |ItemsByName(items)| == |items|
    ensures forall i :: 0 <= i < |items| ==>
      items[i].FieldName in ItemsByName(items) && ItemsByName(items)[items[i].FieldName] == items[i]
    decreases |items|
  {
    if |items| > 0 {
      var p := items[..|items| - 1];
      var last := items[|items| - 1];
      DistinctNamesKeepEveryItem(p);
      ItemsByNameKeys(p);
      assert forall k :: 0 <= k < |p| ==> p[k] == items[k];
      assert last.FieldName !in FieldNames(p);
      forall i | 0 <= i < |items|
        ensures items[i].FieldName in ItemsByName(items) && ItemsByName(items)[items[i].FieldName] == items[i]
      {
        ItemsByNameLastWins(items, i);
      }
    }
  }

  /** `items[i]` is the first item of `items` whose download is rejected. */
  predicate FirstRejectedAt(secretId: int, items: seq<SecretItem>, download: (int, int) -> DownloadFileAttachmentByItemIdResult, i: int)
  {
    0 <= i < |items| && DownloadFails(secretId, items[i], download)
    && forall j :: 0 <= j < i ==> !DownloadFails(secretId, items[j], download)
  }

  /** The normalisation runs to the end exactly when no file item's download is rejected. */
  lemma {:induction false} NoRejectedDownload(secretId: int, items: seq<SecretItem>, download: (int, int) -> DownloadFileAttachmentByItemIdResult)
    ensures FirstRejected(secretId, items, download).None? <==>
      forall i :: 0 <= i < |items| ==> !DownloadFails(secretId, items[i], download)
    decreases |items|
  {
    if |items| > 0 {
      var p := items[..|items| - 1];
      NoRejectedDownload(secretId, p, download);
      assert forall j :: 0 <= j < |p| ==> p[j] == items[j];
    }
  }

  /** The position found is that of the first file item whose download is rejected. */
  lemma {:induction false} FirstRejectedIsFirst(secretId: int, items: seq<SecretItem>, download: (int, int) -> DownloadFileAttachmentByItemIdResult)
    requires FirstRejected(secretId, items, download).Some?
    ensures FirstRejectedAt(secretId, items, download, FirstRejected(secretId, items, download).value)
    decreases |items|
  {
    var n := |items| - 1;
    var p := items[..n];
    assert forall j :: 0 <= j < n ==> p[j] == items[j];
    if FirstRejected(secretId, p, download).Some? {
      FirstRejectedIsFirst(secretId, p, download);
    } else {
      NoRejectedDownload(secretId, p, download);
    }
  }

  /**
   * A successful normalisation keys every field name of the wire list, and a
   * name maps to the last item carrying it: a file item with its downloaded
   * attachment as `Value`, any other item unchanged.
   */
  lemma NormalizedItemsContents(secretId: int, raw: seq<SecretItem>, download: (int, int) -> DownloadFileAttachmentByItemIdResult)
    requires NormalizedItems(secretId, raw, download).Success?
    ensures var m := NormalizedItems(secretId, raw, download).value;
      m.Keys == FieldNames(raw) &&
      forall i :: 0 <= i < |raw| && LastNamed(raw, i) ==>
        m[raw[i].FieldName] == if raw[i].IsFile then raw[i].(Value := Some(download(secretId, raw[i].Id))) else raw[i]
  {
    var resolved := ResolveAll(secretId, raw, download);
    ItemsByNameKeys(resolved);
    assert FieldNames(resolved) == FieldNames(raw) by {
      forall n | n in FieldNames(raw) ensures n in FieldNames(resolved) {
        var k :| 0 <= k < |raw| && raw[k].FieldName == n;
        assert resolved[k].FieldName == n;
      }
    }
    forall i | 0 <= i < |raw| && LastNamed(raw, i)
      ensures ItemsByName(resolved)[raw[i].FieldName] == Resolve(secretId, raw[i], download)
    {
      assert LastNamed(resolved, i);
      ItemsByNameLastWins(resolved, i);
    }
  }

  /** Normalisation succeeds exactly when no file item's download is rejected. */
  lemma NormalizedItemsOutcome(secretId: int, raw: seq<SecretItem>, download: (int, int) -> DownloadFileAttachmentByItemIdResult)
    ensures NormalizedItems(secretId, raw, download).Success? <==>
      forall i :: 0 <= i < |raw| ==> !(raw[i].IsFile && download(secretId, raw[i].Id).Errors.Some?)
    ensures NormalizedItems(secretId, raw, download).Failure? ==>
      exists i :: FirstRejectedAt(secretId, raw, download, i)
        && NormalizedItems(secretId, raw, download).error == Rejection(secretId, raw[i], download)
  {
    NoRejectedDownload(secretId, raw, download);
    if FirstRejected(secretId, raw, download).Some? {
      FirstRejectedIsFirst(secretId, raw, download);
    }
  }

  /** The get-secret answer carries a secret that the validator accepts. */
  predicate SecretDelivered(result: GetSecretResult)
  {
    result.Errors.None? && result.SecretError.None? && result.Secret.Some? && IdTruthy(result.Secret.value.Id)
  }

  /**
   * The answer step of `GetSecretById(id)`: validate the answer, normalise the
   * secret's items and hand back the secret with its `Items` replaced by the
   * mapping and every other field as received.
   */
  method GetSecretById(id: int, result: GetSecretResult, download: (int, int) -> DownloadFileAttachmentByItemIdResult)
    returns (r: Result<Secret, string>)
    requires result.Errors.Some? || result.SecretError.Some? || result.Secret.Some?
    requires SecretDelivered(result) ==> result.Secret.value.Items.Wire?
    ensures !SecretDelivered(result) ==> r == Failure(IsError(Answer(None, Some(result), None)).value)
    ensures SecretDelivered(result) ==>
      var secret := result.Secret.value;
      match NormalizedItems(id, secret.Items.SecretItem, download)
      case Failure(e) => r == Failure(e)
      case Success(m) => r == Success(secret.(Items := Keyed(m)))
  {
    var answer := Answer(None, Some(result), None);
    var thrown := IsError(answer);
    if thrown.Some? {
      return Failure(thrown.value);
    }
    var secret := result.Secret.value;
    var items := NormalizeItems(id, secret.Items.SecretItem, download);
    match items
    case Failure(e) => return Failure(e);
    case Success(m) => return Success(secret.(Items := Keyed(m)));
  }
}
