# Thycotic Secret Server client: response validation and secret normalisation

This project models the decision logic of the Node.js Secret Server client
(`index.js`): how it classifies every SOAP answer into "accepted" or a thrown
message (`isError`, with the key-to-message mapping `_exception` and its
`ERRORS` table), and how `GetSecretById` turns the wire list of a secret's
items into a mapping keyed by field name, fetching the attachment of every
file field on the way. The answer shapes follow `types.js`.

- `Wire` holds the records as the transport delivers them. A field that may be
  missing is an `Option`; `Errors` stands for the `Errors.string` list. A
  text that is only concatenated, such as the parts of a `SecretError`, is a
  `JsText.JsString`: missing, `null` or a string.
  An `Answer` has one optional field per result kind. The validator looks at
  them in the source's order: authenticate, then get-secret, then download.
- `Validator.IsError` returns the message `isError` throws, or `None`.
  `Validator.Exception` is `_exception`. `JsText` gives JavaScript's
  `join` and `trim`, plus `Split`, the inverse of `join` used to state a
  round trip.
- `Client.NormalizeItems` is the loop of `GetSecretById`. It is proved equal
  to the specification function `Client.NormalizedItems`. The lemmas say what
  that mapping holds: its keys, last write wins, and file attachments.
  `Client.GetSecretById` is the whole answer step.
- The attachment download is a parameter `download(secretId, itemId)`. It
  stands for the `DownloadFileAttachmentByItemIdResult` record the service
  answers with; the model applies the client's own check to it. The session
  token and the SOAP calls are not modelled.

Behaviour of the code worth knowing:

- A present `Errors` list throws even when it is empty; the code tests only
  that the list object is there. The message is then the empty string
  (`Validator.EmptyErrorListFails`).
- On duplicate field names the later item wins (`items[item.FieldName]=item`).
- The four texts of a `SecretError` may be missing or nil. The message is
  built with JavaScript `+`, so such a text reads "undefined" or "null"
  (`JsText.ToText`, `Validator.SecretErrorWithoutTitles`).
- Remote error text goes through `_exception` too. A remote message that is
  literally `GOT_EMPTY_TOKEN` or `GOT_EMPTY_SECRET` is therefore replaced by
  the fixed message (`Validator.RemoteTextNamingKeyIsReplaced`). So "the joined
  and trimmed text, verbatim" holds only for text that is not a table key.

## Model

| member | source | states |
|---|---|---|
| `Validator.Exception` | index.js:116-119 | the thrown value is never itself a key of the `ERRORS` table |
| `Validator.ExceptionMapsKeys` | index.js:15-18 | `GOT_EMPTY_TOKEN` and `GOT_EMPTY_SECRET` map to their fixed messages; every other text passes through unchanged |
| `Validator.ExceptionIdempotent` | index.js:47-49 | passing a thrown message through `_exception` again (the catch of `_connect`) leaves it unchanged |
| `Validator.IsError` | index.js:125-161 | every message the validator throws is already mapped (not a table key) |
| `Validator.AuthenticateErrors` | index.js:130-131 | an authentication result with an `Errors` list throws the list joined with "," and trimmed (mapped), whatever the token and whatever other fields the answer has; verbatim when that text is not a key |
| `Validator.AuthenticateToken` | index.js:132-134 | with no `Errors`, a zero-length token throws the fixed empty-token message and a non-empty token passes |
| `Validator.GetSecretErrorsFirst` | index.js:139-140 | a get-secret `Errors` list is reported before any `SecretError` or secret check |
| `Validator.GetSecretSecretError` | index.js:141-147 | with no `Errors`, a `SecretError` throws exactly "[code] message: comment title. additional comment title", each part as `+` renders it; with all four texts present, exactly those texts |
| `Validator.SecretErrorWithoutTitles` | index.js:142-147 | a `SecretError` without comment titles still throws, with "undefined" in place of each title |
| `Validator.GetSecretEmptySecret` | index.js:150-152 | with neither kind of error, a secret whose `Id` is missing or 0 throws the fixed empty-secret message; a truthy `Id` passes |
| `Validator.DownloadErrorsOnly` | index.js:156-159 | a download result fails if and only if its `Errors` list is present, with the joined and trimmed message |
| `Validator.UnrecognisedAnswerPasses` | index.js:125-161 | an answer with none of the three result fields is not an error |
| `Validator.DispatchOrdered` | index.js:129-156 | the first present result field (authenticate, get-secret, download) alone decides the verdict |
| `Validator.RemoteErrorsRoundTrip` | index.js:130-131 | for comma-free remote texts whose join is unpadded and not a key, the thrown message splits back on "," into the original list |
| `Validator.SingleErrorVerbatim` | index.js:130-131 | a single remote error text that has no white space at its ends and is not a table key is thrown exactly as received |
| `Validator.EmptyErrorListFails` | index.js:130-131 | a present but empty `Errors` list throws the empty message |
| `Validator.RemoteTextNamingKeyIsReplaced` | index.js:118 | a remote error text equal to `GOT_EMPTY_SECRET` is thrown as the fixed empty-secret message |
| `JsText.TrimStart` | index.js:131 | the result is the suffix left after a prefix made only of white space, and it does not start with white space |
| `JsText.TrimEnd` | index.js:131 | the result is the prefix left before a suffix made only of white space, and it does not end with white space |
| `JsText.Trim` | index.js:131 | the result is no longer than the input and has no white space at either end |
| `JsText.TrimIsInfix` | index.js:131 | trimming keeps a contiguous part of the text and removes only white space around it |
| `JsText.TrimUnique` | index.js:131 | for white space, then an unpadded core, then white space, trim gives exactly the core |
| `JsText.TrimIdempotent` | index.js:131 | trimming twice is the same as trimming once |
| `JsText.Join` | index.js:131 | `parts.join(sep)`: "" for no parts, otherwise text that starts with the first part, followed by the separator when there are more parts; `Split` recovers separator-free parts (`SplitJoin`) |
| `JsText.ToText` | index.js:143-146 | how `+` renders a value: undefined gives "undefined", null gives "null", a string itself |
| `Validator.SecretErrorText` | index.js:142-147 | the composed "[code] message: title. additional" text, which starts with "[" and so is never a table key |
| `JsText.SplitJoin` | index.js:131 | joining parts with a separator character none of them contains is undone by splitting on it |
| `Client.Connect` | index.js:42-49 | the connection yields the token exactly when there are no `Errors` and the token is non-empty; otherwise it rejects with the validator's message, unchanged by the rethrow in the catch |
| `Client.DownloadFileAttachmentByItemId` | index.js:68-72 | the download yields the result record exactly when it has no `Errors`, and otherwise rejects with the joined and trimmed message |
| `Client.Resolve` | index.js:99-101 | a file item gains `Value = download(secretId, item.Id)` and nothing else changes; any other item is returned unchanged |
| `Client.NormalizeItems` | index.js:97-104 | the loop computes the specification `NormalizedItems`: the first rejected download in list order, or the mapping of all resolved items by field name |
| `Client.FirstRejected` | index.js:98-101 | the position the loop stops at, when there is one, is that of a file item whose download is rejected |
| `Client.NoRejectedDownload` | index.js:98-101 | the loop runs to the end exactly when no file item's download is rejected |
| `Client.FirstRejectedIsFirst` | index.js:98-101 | when the loop stops, it stops at the first file item, in list order, whose download is rejected |
| `Client.NormalizedItemsOutcome` | index.js:98-101 | normalisation succeeds if and only if no file item's download carries `Errors`; on failure the message is the joined and trimmed `Errors` of the first rejected download |
| `Client.ItemsByNameKeys` | index.js:102-104 | the key set of the mapping is exactly the set of field names of the list |
| `Client.ItemsByNameLastWins` | index.js:102 | each key maps to the last item of the list with that field name |
| `Client.DistinctNamesKeepEveryItem` | index.js:98-103 | with distinct field names the mapping has one entry per item and keeps every item |
| `Client.NormalizedItemsContents` | index.js:97-104 | after a successful normalisation the keys are the wire field names; each maps to the last item of that name, file items carrying `download(secretId, item.Id)` as `Value` and other items unchanged |
| `Client.GetSecretById` | index.js:94-107 | a rejected answer fails with the validator's message; an accepted one yields the secret with `Items` replaced by the normalised mapping and every other field as received, or the first download rejection |
| `Scenarios.LoginFailedScenario` | test/tests.js:19-21 | the stub's rejection of a wrong login makes the connection reject with "Login failed." |
| `Scenarios.GoodLoginScenario` | test/tests.js:22-24 | the stub's accepted login yields the token "goodtoken" |
| `Scenarios.AccessDeniedScenario` | test/tests.js:29-31 | the stub's answer for secret 999 throws "Access Denied" |
| `Scenarios.FileAttachmentScenario` | test/tests.js:37-44 | the stub's secret 1 is accepted and its "File" field carries the attachment with content "ok" |

## Left out

- The SOAP transport (`soap.createClientAsync`, `AuthenticateAsync`, `GetSecretAsync`, `DownloadFileAttachmentByItemIdAsync`): foreign code and network I/O. Their answers are parameters.
- Promise chaining and the shared `connection` promise (index.js:21, 33-74, 83-108): asynchronous plumbing. The answer steps are modelled as functions and methods of the answer.
- The constructor's fields `token` and `connection` (index.js:10-23): only the `ERRORS` table is modelled, as `Validator.ErrorTable`.
- JavaScript failures on malformed answers (an authentication result with neither `Errors` nor `Token`, a get-secret result with no `Errors`, `SecretError` or `Secret`, an accepted secret whose `Items` is not the wire list): these would be TypeErrors, so they are preconditions.
- Errors raised by the transport itself and passed through the catch of `_connect`: not modelled; only validator messages reach that catch here.
- `Secret.SecretSettings` and `Secret.SecretPermissions`: nested records the core never reads or writes. `GetSecretById` leaves every secret field but `Items` untouched, and these two would be no different.
- In-place mutation of items: `item['Value'] = ...` becomes a new item value. The wire list is dropped once `Items` is replaced, so no alias of it can be observed.
- A field named `__proto__`: assigning it on a plain JavaScript object sets the object's prototype and adds no key. The model treats it as an ordinary key.
- A secret `Id` of `NaN`: also falsy in JavaScript; the model's numbers are integers.
- JavaScript strings are UTF-16; the model's `char` is a Unicode scalar value. Every code point `trim` removes is in the Basic Multilingual Plane, so this changes no result.
- `types.js`, `test/mockup.js` and `test/tests.js`: used only for record shapes and scenarios.
  The test suite calls `GetSecret`, a method of a published build of the client that
  index.js does not define; the model states those scenarios on `Validator.IsError` and `Client.NormalizedItems`, the two cases of the contract of `Client.GetSecretById`.
