/**
 * The response validator of the client (`isError`) and its error mapping
 * (`_exception` with the `ERRORS` table). `IsError` gives the message the
 * client throws for an answer, or `None` when the answer is accepted.
 */
module Validator {
  import opened Wrappers
  import opened JsText
  import opened Wire

  const EmptyTokenKey: string := "GOT_EMPTY_TOKEN"
  const EmptySecretKey: string := "GOT_EMPTY_SECRET"
  const EmptyTokenMessage: string := "Authentication resulted in empty token. That is unexpected."
  const EmptySecretMessage: string := "Got empty secret with no error. That is unexpected."

  /** The client's `ERRORS` table: symbolic key to fixed message. */
  const ErrorTable: map<string, string> :=
    map[EmptyTokenKey := EmptyTokenMessage, EmptySecretKey := EmptySecretMessage]

  /** The value `_exception(error)` throws: the fixed message of a known key, any other text unchanged. */
  function Exception(error: string): (thrown: string)
    ensures thrown !in ErrorTable
  {
    if error in ErrorTable then ErrorTable[error] else error
  }

  /** JavaScript truthiness of a secret's numeric `Id`: present and not zero. */
  predicate IdTruthy(id: Option<int>)
  {
    id.Some? && id.value != 0
  }

  /** The text thrown for a remote `Errors.string` list before key mapping: joined with "," and trimmed. */
  function RemoteErrorsText(errors: seq<string>): (message: string)
  {
    Trim(Join(errors, ","))
  }

  /** The text thrown for a structured secret error. */
  function SecretErrorText(e: SecretError): (text: string)
    ensures |text| > 0 && text[0] == '['
  {
    "[" + ToText(e.ErrorCode) + "] " + ToText(e.ErrorMessage) + ": " + ToText(e.CommentTitle) + ". "
      + ToText(e.AdditionalCommentTitle)
  }

  /**
   * The answers on which `isError` reaches a verdict rather than failing on a
   * missing field: an authentication result carries errors or a token, a
   * get-secret result carries errors, a secret error or a secret.
   */
  predicate Checkable(answer: Answer)
  {
    if answer.AuthenticateResult.Some? then
      answer.AuthenticateResult.value.Errors.Some? || answer.AuthenticateResult.value.Token.Some?
    else if answer.GetSecretResult.Some? then
      var g := answer.GetSecretResult.value;
      g.Errors.Some? || g.SecretError.Some? || g.Secret.Some?
    else true
  }

  /** The message `isError(answer)` throws, or `None` when it returns normally. */
  function IsError(answer: Answer): (thrown: Option<string>)
    requires Checkable(answer)
    ensures thrown.Some? ==> thrown.value !in ErrorTable
  {
    if answer.AuthenticateResult.Some? then
      var a := answer.AuthenticateResult.value;
      if a.Errors.Some? then Some(Exception(RemoteErrorsText(a.Errors.value)))
      else if |a.Token.value| == 0 then Some(Exception(EmptyTokenKey))
      else None
    else if answer.GetSecretResult.Some? then
      var g := answer.GetSecretResult.value;
      if g.Errors.Some? then Some(Exception(RemoteErrorsText(g.Errors.value)))
      else if g.SecretError.Some? then Some(Exception(SecretErrorText(g.SecretError.value)))
      else if !IdTruthy(g.Secret.value.Id) then Some(Exception(EmptySecretKey))
      else None
    else if answer.DownloadFileAttachmentByItemIdResult.Some? then
      var d := answer.DownloadFileAttachmentByItemIdResult.value;
      if d.Errors.Some? then Some(Exception(RemoteErrorsText(d.Errors.value)))
      else None
    else None
  }

  /** `_exception` replaces exactly the two keys of the table and passes every other text through. */
  lemma ExceptionMapsKeys()
    ensures Exception("GOT_EMPTY_TOKEN") == "Authentication resulted in empty token. That is unexpected."
    ensures Exception("GOT_EMPTY_SECRET") == "Got empty secret with no error. That is unexpected."
    ensures forall e :: e != "GOT_EMPTY_TOKEN" && e != "GOT_EMPTY_SECRET" ==> Exception(e) == e
  {
  }

  /** Throwing a thrown message again (as the catch in `_connect` does) leaves it unchanged. */
  lemma ExceptionIdempotent(error: string)
    ensures Exception(Exception(error)) == Exception(error)
  {
  }

  /** Authentication: a present `Errors` list is reported, whatever the token. */
  lemma AuthenticateErrors(a: AuthenticateResult, g: Option<GetSecretResult>, d: Option<DownloadFileAttachmentByItemIdResult>)
    requires a.Errors.Some?
    ensures IsError(Answer(Some(a), g, d)) == Some(Exception(Trim(Join(a.Errors.value, ","))))
    ensures Trim(Join(a.Errors.value, ",")) !in ErrorTable ==>
      IsError(Answer(Some(a), g, d)) == Some(Trim(Join(a.Errors.value, ",")))
  {
  }

  /** Authentication without errors: an empty token is the fixed GOT_EMPTY_TOKEN failure, any other token passes. */
  lemma AuthenticateToken(a: AuthenticateResult, g: Option<GetSecretResult>, d: Option<DownloadFileAttachmentByItemIdResult>)
    requires a.Errors.None? && a.Token.Some?
    ensures |a.Token.value| == 0 ==> IsError(Answer(Some(a), g, d)) == Some(EmptyTokenMessage)
    ensures |a.Token.value| > 0 ==> IsError(Answer(Some(a), g, d)) == None
  {
  }

  /** Get-secret: the `Errors` list takes priority over a secret error and over the secret. */
  lemma GetSecretErrorsFirst(r: GetSecretResult, d: Option<DownloadFileAttachmentByItemIdResult>)
    requires r.Errors.Some?
    ensures IsError(Answer(None, Some(r), d)) == Some(Exception(Trim(Join(r.Errors.value, ","))))
  {
  }

  /**
   * Get-secret without errors: a secret error is reported in the composed form,
   * with no key mapping; a missing text reads "undefined" and a nil one "null".
   */
  lemma GetSecretSecretError(r: GetSecretResult, d: Option<DownloadFileAttachmentByItemIdResult>)
    requires r.Errors.None? && r.SecretError.Some?
    ensures var e := r.SecretError.value;
      IsError(Answer(None, Some(r), d)) ==
        Some("[" + ToText(e.ErrorCode) + "] " + ToText(e.ErrorMessage) + ": " + ToText(e.CommentTitle) + ". "
             + ToText(e.AdditionalCommentTitle))
    ensures var e := r.SecretError.value;
      e.ErrorCode.Str? && e.ErrorMessage.Str? && e.CommentTitle.Str? && e.AdditionalCommentTitle.Str? ==>
        IsError(Answer(None, Some(r), d)) ==
          Some("[" + e.ErrorCode.text + "] " + e.ErrorMessage.text + ": " + e.CommentTitle.text + ". "
               + e.AdditionalCommentTitle.text)
  {
  }

  /** A secret error whose comment titles are missing still throws, with "undefined" in their place. */
  lemma SecretErrorWithoutTitles(code: string, message: string, allows: bool)
    ensures IsError(Answer(None, Some(GetSecretResult(None, Some(SecretError(Str(code), Str(message), allows, Undefined, Undefined)), None)), None))
      == Some("[" + code + "] " + message + ": undefined. undefined")
  {
    var e := SecretError(Str(code), Str(message), allows, Undefined, Undefined);
    var pre := "[" + code + "] " + message + ": ";
    assert SecretErrorText(e) == pre + "undefined" + ". " + "undefined";
    var head := "[" + code + "] " + message;
    assert pre + "undefined" + ". " + "undefined" == head + (": " + "undefined" + ". " + "undefined");
    assert ": " + "undefined" + ". " + "undefined" == ": undefined. undefined";
  }

  /** Get-secret with neither kind of error: the secret is accepted exactly when its `Id` is truthy. */
  lemma GetSecretEmptySecret(r: GetSecretResult, d: Option<DownloadFileAttachmentByItemIdResult>)
    requires r.Errors.None? && r.SecretError.None? && r.Secret.Some?
    ensures var id := r.Secret.value.Id;
      IsError(Answer(None, Some(r), d)) == if id.None? || id.value == 0 then Some(EmptySecretMessage) else None
  {
  }

  /** Download: the answer fails exactly when its `Errors` list is present. */
  lemma DownloadErrorsOnly(r: DownloadFileAttachmentByItemIdResult)
    ensures IsError(Answer(None, None, Some(r))).Some? <==> r.Errors.Some?
    ensures r.Errors.Some? ==> IsError(Answer(None, None, Some(r))) == Some(Exception(Trim(Join(r.Errors.value, ","))))
  {
    var answer := Answer(None, None, Some(r));
    if r.Errors.Some? {
      assert IsError(answer) == Some(Exception(RemoteErrorsText(r.Errors.value)));
    } else {
      assert IsError(answer) == None;
    }
  }

  /** An answer carrying none of the three result fields passes as "no error". */
  lemma UnrecognisedAnswerPasses()
    ensures IsError(Answer(None, None, None)) == None
  {
  }

  /**
   * Dispatch is ordered and exclusive: the first present result field, in the
   * order authenticate, get-secret, download, decides alone.
   */
  lemma DispatchOrdered(answer: Answer)
    requires Checkable(answer)
    ensures answer.AuthenticateResult.Some? ==>
      IsError(answer) == IsError(Answer(answer.AuthenticateResult, None, None))
    ensures answer.AuthenticateResult.None? && answer.GetSecretResult.Some? ==>
      IsError(answer) == IsError(Answer(None, answer.GetSecretResult, None))
    ensures answer.AuthenticateResult.None? && answer.GetSecretResult.None? ==>
      IsError(answer) == IsError(Answer(None, None, answer.DownloadFileAttachmentByItemIdResult))
  {
  }

  /**
   * For remote error texts free of commas, whose joined form is not padded and
   * names no table key, the thrown message splits back into the original list.
   */
  lemma {:induction false} RemoteErrorsRoundTrip(errors: seq<string>, g: Option<GetSecretResult>, d: Option<DownloadFileAttachmentByItemIdResult>)
    requires |errors| > 0
    requires forall i :: 0 <= i < |errors| ==> ',' !in errors[i]
    requires Unpadded(Join(errors, ",")) && Join(errors, ",") !in ErrorTable
    ensures var thrown := IsError(Answer(Some(AuthenticateResult(Some(errors), None)), g, d));
      thrown.Some? && Split(thrown.value, ',') == errors
  {
    var j := Join(errors, ",");
    assert Split(j, ',') == errors by {
      assert "," == [','];
      SplitJoin(errors, ',');
    }
    assert Trim(j) == j by {
      assert [] + j + [] == j;
      TrimUnique([], j, []);
    }
    AuthenticateErrors(AuthenticateResult(Some(errors), None), g, d);
    var thrown := IsError(Answer(Some(AuthenticateResult(Some(errors), None)), g, d));
    assert thrown == Some(j);
    assert Split(thrown.value, ',') == errors;
  }

  /** A present but empty `Errors` list still fails, with the empty message. */
  lemma EmptyErrorListFails(a: AuthenticateResult)
    requires a.Errors == Some([])
    ensures IsError(Answer(Some(a), None, None)) == Some("")
  {
  }

  /** A single remote error text, unpadded and not a table key, is thrown verbatim. */
  lemma SingleErrorVerbatim(e: string)
    requires Unpadded(e) && e !in ErrorTable
    ensures Exception(RemoteErrorsText([e])) == e
  {
    assert Join([e], ",") == e;
    assert [] + e + [] == e;
    TrimUnique([], e, []);
  }

  /** A remote error text naming a table key is replaced by the key's fixed message. */
  lemma RemoteTextNamingKeyIsReplaced()
    ensures IsError(Answer(Some(AuthenticateResult(Some(["GOT_EMPTY_SECRET"]), Some("token"))), None, None))
      == Some(EmptySecretMessage)
  {
    assert Join(["GOT_EMPTY_SECRET"], ",") == "GOT_EMPTY_SECRET";
    assert Trim("GOT_EMPTY_SECRET") == "GOT_EMPTY_SECRET" by {
      assert [] + "GOT_EMPTY_SECRET" + [] == "GOT_EMPTY_SECRET";
      TrimUnique([], "GOT_EMPTY_SECRET", []);
    }
  }
}
