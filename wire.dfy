/**
 * The records the Secret Server SOAP interface answers with, as the client
 * receives them from the transport (the shapes documented in types.js).
 * A field the client tests for presence, or that an answer carrying `Errors`
 * lacks, is an `Option` (a `JsString` where the client only concatenates it);
 * fields the client passes on without reading keep the types.js type.
 * An `Errors` field stands for the `Errors.string` list of its result.
 */
module Wire {
  import opened Wrappers
  import opened JsText

  /**
   * A structured refusal to hand out a secret (for example, a comment is
   * required). Only `AllowsResponse` is mandatory in the interface; each text
   * may be missing or nil.
   */
  datatype SecretError = SecretError(
    ErrorCode: JsString,
    ErrorMessage: JsString,
    AllowsResponse: bool,
    CommentTitle: JsString,
    AdditionalCommentTitle: JsString)

  /** The result of DownloadFileAttachmentByItemId; it is also the payload a file item carries as `Value`. */
  datatype DownloadFileAttachmentByItemIdResult = DownloadFileAttachmentByItemIdResult(
    Errors: Option<seq<string>>,
    FileAttachment: Option<string>,
    FileName: Option<string>)

  /** One field of a secret. `Value` is set for file fields once the attachment is fetched. */
  datatype SecretItem = SecretItem(
    Id: int,
    FieldId: int,
    FieldName: string,
    IsFile: bool,
    IsNotes: bool,
    IsPassword: bool,
    FieldDisplayName: string,
    Value: Option<DownloadFileAttachmentByItemIdResult>)

  /**
   * The `Items` field of a secret: on the wire it wraps the list `SecretItem`;
   * after normalisation it is a mapping from field name to item.
   */
  datatype Items =
    | Wire(SecretItem: seq<SecretItem>)
    | Keyed(ByName: map<string, SecretItem>)

  datatype Secret = Secret(
    Name: string,
    Items: Items,
    Id: Option<int>,
    SecretTypeId: int,
    FolderId: int,
    IsWebLauncher: bool,
    CheckOutMinutesRemaining: Option<int>,
    IsCheckedOut: Option<bool>,
    CheckOutUserDisplayName: string,
    CheckOutUserId: int,
    IsOutOfSync: Option<bool>,
    IsRestricted: Option<bool>,
    OutOfSyncReason: string,
    Active: Option<bool>)

  datatype AuthenticateResult = AuthenticateResult(
    Errors: Option<seq<string>>,
    Token: Option<string>)

  datatype GetSecretResult = GetSecretResult(
    Errors: Option<seq<string>>,
    SecretError: Option<SecretError>,
    Secret: Option<Secret>)

  /**
   * A response record: each remote operation answers with one field named
   * after it. Fields the validator does not look at are not represented.
   */
  datatype Answer = Answer(
    AuthenticateResult: Option<AuthenticateResult>,
    GetSecretResult: Option<GetSecretResult>,
    DownloadFileAttachmentByItemIdResult: Option<DownloadFileAttachmentByItemIdResult>)
}
