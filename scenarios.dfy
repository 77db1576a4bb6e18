/**
 * The answers of the stub service used by the client's test suite, and what
 * the model says the client makes of them. The suite calls `GetSecret`, a
 * method of a published build of the client that index.js does not define;
 * its scenarios are stated here on `IsError` and `NormalizedItems`, the two
 * cases of the contract of `GetSecretById`.
 */
module Scenarios {
  import opened Wrappers
  import opened JsText
  import opened Wire
  import opened Validator
  import opened Client

  /** The stub's authentication answer for a wrong login. */
  const RejectedLogin: AuthenticateResult := AuthenticateResult(Some(["Login failed."]), None)

  /** The stub's authentication answer for ("goodlogin", "goodpassword"). */
  const AcceptedLogin: AuthenticateResult := AuthenticateResult(None, Some("goodtoken"))

  /** The stub's get-secret answer for any id but 1. */
  const DeniedSecret: GetSecretResult := GetSecretResult(Some(["Access Denied"]), None, None)

  /** The one item of the stub's secret 1: a file field named "File". */
  const FileItem: SecretItem := SecretItem(1, 1, "File", true, false, false, "File", None)

  /** The stub's secret 1. */
  const StubSecret: Secret :=
    Secret("Secret", Wire([FileItem]), Some(1), 1, 1, false, Some(0), Some(false), "", 0,
           Some(false), Some(false), "", Some(true))

  /** The stub's attachment download, whatever the ids. */
  const StubDownload: (int, int) -> DownloadFileAttachmentByItemIdResult :=
    (secretId: int, itemId: int) => DownloadFileAttachmentByItemIdResult(None, Some("ok"), Some("filename"))

  lemma LoginFailedScenario()
    ensures Connect(RejectedLogin) == Failure("Login failed.")
  {
    SingleErrorVerbatim("Login failed.");
  }

  lemma GoodLoginScenario()
    ensures Connect(AcceptedLogin) == Success("goodtoken")
  {
  }

  lemma AccessDeniedScenario()
    ensures IsError(Answer(None, Some(DeniedSecret), None)) == Some("Access Denied")
  {
    SingleErrorVerbatim("Access Denied");
  }

  /** Secret 1 is accepted, and its "File" field carries the attachment whose content is "ok". */
  lemma FileAttachmentScenario()
    ensures SecretDelivered(GetSecretResult(None, None, Some(StubSecret)))
    ensures var n := NormalizedItems(1, [FileItem], StubDownload);
      n.Success? && n.value.Keys == {"File"} && n.value["File"].Value.Some?
      && n.value["File"].Value.value.FileAttachment == Some("ok")
  {
    NormalizedItemsOutcome(1, [FileItem], StubDownload);
    NormalizedItemsContents(1, [FileItem], StubDownload);
    assert FieldNames([FileItem]) == {"File"};
    assert LastNamed([FileItem], 0);
  }
}
