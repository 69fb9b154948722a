# Solace image publisher and viewer, modelled in Dafny

The repository sends images over a publish/subscribe broker. A Python
script (`image_publisher.py`) reads image files, base64-encodes them and
publishes one message per file on a topic `solace/images/<filename>`. A React
viewer subscribes to `solace/images/>`, turns each message's binary
attachment back into base64 text, keeps a de-duplicated list of image
records and renders each one as a `data:` URL.

This project models the logic of both ends:

- `strings.dfy` (`Strings`): the string primitives the code relies on.
  These are `startsWith`, `indexOf`, `includes`, `replace(/\s/g, '')` with
  the JavaScript `\s` set, ASCII lower-casing and the decimal rendering of
  `Date.now()`.
- `base64.dfy` (`Base64`): base64 as in section 4 of RFC 4648, which both
  `btoa` and `base64.b64encode` produce. It comes with a decoder that undoes
  the encoding, and with the facts that the text opens with `/9j/` exactly
  for bytes opening FF D8 FF, and with `iVBORw0K` exactly for bytes opening
  with the PNG signature's first six bytes.
- `payload.dfy` (`Payload`): `processBinaryData`. It is a method with the
  source's step-by-step reassignments and its 1024-byte chunk loop. It is
  proved equal to the function `Processed`, and the cleanup's properties are
  lemmas about that function.
- `dispatcher.dfy` (`Dispatcher`): the `handleMessage` gate and the image
  record it builds.
- `connection.dfy` (`Connection`): the `useSolaceClient` hook as a class.
  Its fields are `isConnected`, `isConnecting`, `session` and `error`. Its
  methods are `connect`, `disconnect` and the handlers `connect` registers
  for `UP_NOTICE`, `CONNECT_FAILED_ERROR`, `DISCONNECTED` and
  `SUBSCRIPTION_ERROR`.
- `gallery.dfy` (`Gallery`): the viewer's image list. It has the
  prepend-unless-listed updater, the notification it raises, `clearImages`
  and closing the notification.
- `image_card.dfy` (`ImageCard`): the card's second cleanup, the choice
  between the JPEG and PNG `data:` URL (section 3 of RFC 2397), the
  loading/error state, and the Format label.
- `publisher.dfy` (`Publisher`): `read_image_to_base64`, its signature
  warning, the message metadata, and the loop that skips unreadable files
  and stops at the first message that raises.

`decodeURIComponent` is a parameter of type `string -> Option<string>`:
`None` stands for a throw. `Date.now()` and `new Date().toISOString()` are
parameters too. What a transport call returns or throws, and which session
events arrive, are inputs of the methods that model the hook.

Where the code and the design description of the project disagree, the
model follows the code:

- The design asks the cleanup to be idempotent. `Payload.NotIdempotent`
  exhibits a text that a second pass changes.
- The design has a PNG match take over only when no JPEG marker is found,
  but the code truncates at the PNG signature after the JPEG truncation.
  `Payload.PngCutOverridesJpeg` states the effect.
- The code returns the text alone, with no media type or confidence.
- The broker client strips whitespace before looking for `Kn/9j/`, while the
  card looks first. `ImageCard.ArtifactSurvivesLeadingBlank` shows the
  difference.
- An empty byte buffer is a truthy object and is delivered, carrying empty
  text (`Dispatcher.EmptyBufferIsDelivered`).
- `disconnect` while a connection is still being made does nothing, because
  no session is held yet. `DISCONNECTED` does not reset `isConnecting`.

## Model

| member | source | states |
|---|---|---|
| Strings.IndexOf | demo/src/components/SolaceClient.js:46 | `indexOf` is -1 exactly when the pattern does not occur; otherwise an occurrence with none earlier |
| Strings.RemoveWhitespace | demo/src/components/SolaceClient.js:25 | the result has no `\s` character, is no longer than the text, and leaves whitespace-free text unchanged |
| Strings.RemoveWhitespaceOne | demo/src/components/SolaceClient.js:25 | a single `\s` character is removed and any other single character kept |
| Strings.RemoveWhitespaceAppend | demo/src/components/SolaceClient.js:25 | removing from a concatenation is removing from each part and concatenating, so order and multiplicity of the kept characters are preserved |
| Strings.Decimal | demo/src/components/SolaceClient.js:154 | a non-empty string of digits without a leading zero |
| Strings.DecimalRoundTrip | demo/src/components/SolaceClient.js:154 | reading the numeral of `Date.now()` back gives the number |
| Strings.ToLower | image_publisher.py:97 | lower-casing keeps the length and maps each character by itself |
| Base64.Encode | image_publisher.py:94 | the output has 4·⌈n/3⌉ characters, all from the alphabet or `=` |
| Base64.DecodeEncode | image_publisher.py:94 | decoding the base64 text gives back the bytes exactly |
| Base64.JpegHeaderEncoding | image_publisher.py:98-100 | the text opens with `/9j/` if and only if the bytes open with FF D8 FF |
| Base64.PngHeaderEncoding | image_publisher.py:102-104 | the text opens with `iVBORw0K` if and only if the bytes open with 89 50 4E 47 0D 0A |
| Payload.FromCharCodes | demo/src/components/SolaceClient.js:70 | one character per byte, with the byte's value as its code |
| Payload.FromCharCodesAppend | demo/src/components/SolaceClient.js:68-71 | converting chunk by chunk and concatenating equals converting the whole buffer |
| Payload.Btoa | demo/src/components/SolaceClient.js:72 | `btoa` fails exactly on text with a character above U+00FF |
| Payload.BtoaOfCharCodes | demo/src/components/SolaceClient.js:65-72 | `btoa` of the binary string built from bytes is their base64 encoding |
| Payload.StripKnArtifact | demo/src/components/SolaceClient.js:28-32 | two characters are removed exactly when the text starts with `Kn/9j/`, and what is left starts with `/9j/` |
| Payload.DecodePercent | demo/src/components/SolaceClient.js:35-43 | the text changes only if it has a `%` and the decoder succeeds, and then it becomes the decoded text |
| Payload.CutAtSignature | demo/src/components/SolaceClient.js:46-59 | the result is a suffix; an occurrence past offset 0 becomes the start, otherwise nothing changes |
| Payload.Processed | demo/src/components/SolaceClient.js:16-80 | for a buffer the result decodes back to its bytes; for text it is a suffix of the text after whitespace removal and the `Kn` and percent steps |
| Payload.ProcessBinaryData | demo/src/components/SolaceClient.js:16-80 | a byte buffer yields its base64 encoding, and text yields the cleaned and truncated text |
| Payload.BinaryString | demo/src/components/SolaceClient.js:64-71 | converting the buffer chunk by chunk gives the binary string of all its bytes, one character per byte |
| Payload.UndecodedTextIsWhitespaceFree | demo/src/components/SolaceClient.js:25-59 | without successful percent decoding the result has no whitespace |
| Payload.NoPercentIgnoresDecoder | demo/src/components/SolaceClient.js:35-43 | text without `%` gives a whitespace-free result that does not depend on the decoder |
| Payload.SignatureAtFront | demo/src/components/SolaceClient.js:45-59 | text containing either signature ends up starting with one |
| Payload.JpegOnlyRecovered | demo/src/components/SolaceClient.js:45-52 | text with the JPEG signature and no PNG signature ends up starting with `/9j/` |
| Payload.PngCutOverridesJpeg | demo/src/components/SolaceClient.js:54-59 | JPEG text with `iVBORw0K` further on is cut to start there and no longer starts with `/9j/` |
| Payload.CleanJpegUnchanged | demo/src/components/SolaceClient.js:20-59 | text with no whitespace and no `%` that starts with `/9j/` and has no `iVBORw0K` past its start passes through unchanged |
| Payload.KnArtifactRemoved | demo/src/components/SolaceClient.js:28-32 | `Kn` in front of text that starts with `/9j/` and has no whitespace, no `%` and no `iVBORw0K` is removed and nothing else changes |
| Payload.NotIdempotent | demo/src/components/SolaceClient.js:45-59 | running the cleanup on its own output can change it again |
| Dispatcher.RecordId | demo/src/components/SolaceClient.js:154 | a non-empty application message id is used; otherwise `img-` and the millisecond clock |
| Dispatcher.IsTruthy | demo/src/components/SolaceClient.js:136 | an attachment passes exactly when present and either a buffer (even empty) or non-empty text |
| Dispatcher.HandleMessage | demo/src/components/SolaceClient.js:135-167 | the callback runs exactly for a message with a truthy attachment, with the processed text, the id and the time |
| Dispatcher.EmptyBufferIsDelivered | demo/src/components/SolaceClient.js:136 | an empty buffer passes the gate and yields empty text; no attachment and an empty string do not pass |
| Dispatcher.SynthesizedIdsCollideOnlyOnSameMillisecond | demo/src/components/SolaceClient.js:154 | two synthesized ids are equal if and only if the clock read the same millisecond |
| Connection.SolaceClient.constructor | demo/src/components/SolaceClient.js:124-127 | the hook starts disconnected, not connecting, with no session and no error |
| Connection.ErrorText | demo/src/components/SolaceClient.js:268 | an `Error` gives its message; any other thrown value gives the fallback |
| Connection.MessageText | demo/src/components/SolaceClient.js:216 | an `Error` gives its message; any other thrown value reads as `undefined` |
| Connection.SolaceClient.Connect | demo/src/components/SolaceClient.js:170-272 | no-op while a session is held or connecting; otherwise connecting with the error cleared, or the thrown error (fallback `Failed to connect`) and not connecting |
| Connection.SolaceClient.OnEvent | demo/src/components/SolaceClient.js:198-236 | the new state for each session event, including the subscribe failure inside `UP_NOTICE`; the invariant is kept |
| Connection.SolaceClient.Disconnect | demo/src/components/SolaceClient.js:275-294 | no-op without a session; a teardown throw changes only the error (fallback `Failed to disconnect`); otherwise the session is released |
| Gallery.AddImage | demo/src/App.js:40-53 | a listed id leaves the list unchanged; a new image goes in front of the unchanged list |
| Gallery.HasId | demo/src/App.js:42 | holds exactly when some record in the list carries the id |
| Gallery.AddImageKeepsIdsUnique | demo/src/App.js:40-53 | the updater keeps ids distinct |
| Gallery.AddImageIdempotent | demo/src/App.js:42-43 | delivering the same record twice lists it once |
| Gallery.App.constructor | demo/src/App.js:27-28 | the list starts empty, with no notification, and `Valid()` holds |
| Gallery.App.HandleMessageReceived | demo/src/App.js:39-54 | the list becomes the updater's result; the notification names the id only when the image was added |
| Gallery.App.ClearImages | demo/src/App.js:57-60 | the list is emptied and the `All images cleared` notification set |
| Gallery.App.CloseNotification | demo/src/App.js:69-70 | the notification is dismissed and the list kept |
| ImageCard.CardCleaned | demo/src/components/ImageCard.js:37-55 | the card's cleanup equals the broker client's whenever the raw text starts with `Kn/9j/` or whitespace removal does not create that prefix |
| ImageCard.LooksLikeJpeg | demo/src/components/ImageCard.js:59-61 | the JPEG test holds exactly when the text contains `/9j/` or starts with `9j/`; the `/9j/` prefix test adds nothing |
| ImageCard.LooksLikePng | demo/src/components/ImageCard.js:69-70 | the PNG test holds exactly when the text contains `iVBORw0K` |
| ImageCard.ImageUrl | demo/src/components/ImageCard.js:57-90 | the whole cleaned text behind the JPEG prefix, or behind the PNG prefix exactly when only the PNG test passes |
| ImageCard.FormatLabel | demo/src/components/ImageCard.js:175-176 | PNG, JPEG or Unknown, each exactly for its URL prefix |
| ImageCard.FormatOfImageUrl | demo/src/components/ImageCard.js:57-90 | a rendered URL is labelled PNG exactly when the PNG branch was taken, and never Unknown |
| ImageCard.LeadingWhitespaceKeepsArtifact | demo/src/components/ImageCard.js:37-43 | text starting with whitespace keeps a `Kn` artifact through the card's cleanup |
| ImageCard.ArtifactSurvivesLeadingBlank | demo/src/components/ImageCard.js:37-43 | from the same text the card keeps `Kn/9j/…` while the broker client yields `/9j/…` |
| ImageCard.ImageCardView.constructor | demo/src/components/ImageCard.js:22-24 | the card starts loading, without error, with no URL |
| ImageCard.ImageCardView.RunEffect | demo/src/components/ImageCard.js:26-102 | invalid input sets the error and stops loading; otherwise the URL for the cleaned text, with the error cleared on the JPEG and PNG branches only |
| Publisher.LastIndexOf | image_publisher.py:166-193 | `rfind`: -1 or an offset holding the character, with none after it |
| Publisher.AfterLast | image_publisher.py:166-193 | the longest suffix without the separator, preceded by it when shorter than the text; `basename` (:166) with `/` and `split('.')[-1]` (:193) with `.` |
| Publisher.Extension | image_publisher.py:97 | an extension exists exactly when some non-dot character precedes a dot, and it is the text from the last dot |
| Publisher.SignatureWarning | image_publisher.py:97-105 | a warning only for `.jpg`, `.jpeg` or `.png` names, compared lower-cased |
| Publisher.SignatureWarningOnBytes | image_publisher.py:97-105 | the warning fires exactly when a JPEG-named file lacks FF D8 FF or a PNG-named file lacks the first six PNG signature bytes 89 50 4E 47 0D 0A |
| Publisher.ReadImageToBase64 | image_publisher.py:80-111 | `None` exactly when the read fails; otherwise text that decodes to the file's bytes, together with the warning flag |
| Publisher.MessageFor | image_publisher.py:187-197 | the topic is the prefix, `/` and the file name; the id is `image-` and the file name; the content type is `image/` and the lower-cased text after the last dot; the encoding is `base64` |
| Publisher.TopicLastLevelIsFilename | image_publisher.py:187 | the topic's last level is exactly the file name |
| Publisher.DistinctNamesDistinctMessages | image_publisher.py:187-191 | different file names give different topics and ids |
| Publisher.ContentTypeMatchesExtension | image_publisher.py:193 | where a name has an extension the content type names it, and a name without a dot is used whole |
| Publisher.HiddenFileHasNoExtension | image_publisher.py:97 | a name such as `.png` has no extension, hence no signature check, while the content type reads the text after its dot |
| Publisher.PublishStepSkips | image_publisher.py:169-171 | a file is skipped exactly when its read failed or it is empty; otherwise one message carries its bytes |
| Publisher.PublishStep | image_publisher.py:166-201 | at most one message per file, and any message is the one built from the file's path and the base64 of its bytes |
| Publisher.PublishedAppend | image_publisher.py:164-204 | publishing two lists of files in a row publishes the concatenation |
| Publisher.SkippedFileChangesNothing | image_publisher.py:169-171 | an unreadable or empty file anywhere in the list does not change what is published |
| Publisher.PublishedCarriesFiles | image_publisher.py:164-204 | every published message carries exactly the bytes of one file and is named after it |
| Publisher.Attempted | image_publisher.py:163-211 | the files before it raise nothing, and the file at it raises, unless it is the whole list |
| Publisher.StoppedRunIsPrefix | image_publisher.py:163-211 | what a stopped run publishes is the start of what a run over every file publishes |
| Publisher.NothingRaisedPublishesAll | image_publisher.py:163-211 | when no file raises the loop gets through the whole list |
| Publisher.PublishImages | image_publisher.py:163-211 | the loop publishes `Published` of the files up to the first that raises, in file order, and reports completion exactly when none raised |

## Left out

- Payload.Processed: the `String(binaryData)` fallback for an attachment that is neither text nor a buffer is not modelled; `Attachment` has only the text and buffer cases.
- Payload.ProcessBinaryData: a `Uint8Array` is taken to view its whole underlying buffer. The code reads `binaryData.buffer`, which ignores a view's offset and length.
- Strings.ToLower: Python's `str.lower()` is modelled on ASCII letters only.
- Publisher.Extension: only `/` is a path separator, so Windows paths are not modelled.
- `decodeURIComponent`: its decoding rules are not modelled; it is an abstract parameter.
- The solclientjs library: session creation, the subscribe and unsubscribe calls, timeouts and retries. What they return, throw or deliver is an input.
- React: the order in which state updates and effects are applied. Each hook and component method is one atomic state change.
- The unmount cleanup effect of the hook (SolaceClient.js:297-313): it only calls into the transport and changes no hook state.
- Loading and saving the configuration in `localStorage` (SolaceClient.js:83-132), and the viewer's configuration form.
- Console logging, the image `onLoad`/`onError` handlers and the rest of the rendering.
- `get_image_files`, `main`, argument parsing, the messaging service and TLS setup, the actual publish call and the delay between publishes. These are I/O; the loop takes each file's read result as input.
- Publisher.PublishImages: the `DEBUG` sample printing, enabled by `--debug`, only prints and is not modelled. A `KeyboardInterrupt` is not modelled. A publish that raises is taken to send nothing.
- Connection.MessageText: a thrown non-`Error` object that has a `message` property would show that property, and a thrown `null` makes the handler itself throw; both read as `undefined` here, because `Thrown` does not distinguish them.
- ImageCard.ImageCardView.RunEffect: the `catch` at ImageCard.js:92-96 is not modelled, since every step of the model is total.
- Dispatcher.HandleMessage: the `if (props.onMessageReceived)` test at SolaceClient.js:160 is not modelled; the only caller (App.js:63-66) always passes the callback, so the record is always delivered.
- Publisher.PublishImages: the early return of `publish_images` on an empty file list (image_publisher.py:127-128) is not modelled; for an empty list the model reports `completed`, although the success line is never printed.
- Exceptions thrown inside `handleMessage` after the gate: each operation it calls is total in the model.
