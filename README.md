# mailapi in Dafny

A model of the two classes at the heart of the `calmadeveloper/mailapi` mail
driver, with proofs about them.

- **The transport** (`MailApiTransport`) turns a mail message into the JSON
  payload of a transactional mail API:
  - It starts from `api_key`.
  - Five steps run in order: sender, subject, content, recipients and
    attachments.
  - It posts the payload to the configured endpoint.
  - A response with status 200, and only that, counts as success. The
    message then gets the response's `message_id` under two headers, and
    `send` returns the number of recipients.
  - Anything else becomes a transport exception.
- **The delivery job** (`MailApiJob`) holds an endpoint and a ready-made
  payload. It posts the payload. When the request throws or comes back with
  any status other than 200, it releases itself back onto the queue with a
  fixed 60-second delay. Its `failed` hook does the same.

The modules:

- `MailTypes` (`types.dfy`): the message and its parts, the JSON payload, the
  HTTP outcome, and PHP truthiness. The strings `""` and `"0"` are the falsy
  ones.
- `Base64` (`base64.dfy`): `base64_encode` of attachment bodies, following
  section 4 of RFC 4648, with a decoder. They are proved mutually inverse:
  `Decode(s) == Some(b)` exactly when `Encode(b) == s`.
- `Transport` (`transport.dfy`):
  - Each `add…` step takes the payload and returns the updated one. This is
    how the source's by-reference `$payload` is threaded through.
  - Each step's effect on the JSON is a named predicate (`FromWritten`,
    `SubjectWritten`, …) that says what the step writes and that no other
    key changes.
  - `JsonSpec` states the whole payload key by key. `BuildPayload` is proved
    to meet it, and `PayloadSpecUnique` shows that it determines the payload
    completely.
  - `Send` is proved against the HTTP outcome.
- `Jobs` (`job.dfy`): the job as a class. It has the endpoint, payload and
  `tries` fields. The queue's release requests are a ghost log `released`,
  which `handle` and `failed` append to and nothing else changes.

Calls the model cannot see are parameters:

- The HTTP client is a function `post` from endpoint and payload to an
  outcome. The outcome is a response (status, body, `message_id`) or a thrown
  exception (code, message).
- PHP's `strip_tags` is an arbitrary function `stripTags` on strings. The
  content step depends only on whether stripping changes the body.

Two behaviours of the code are easy to miss:

- The code writes `attachments` as an empty list when the message has
  children but none of them is an attachment. It omits the key only when there
  are no children at all (src/MailApiTransport.php:116-117).
- `from_name` and `subject` are written only when PHP considers them truthy,
  so the string `"0"` is skipped like the empty string.

## Model

| member | source | states |
|---|---|---|
| Base64.Encode | src/MailApiTransport.php:122 | the encoding is four characters per started group of three bytes; every character is from the alphabet or `=`, and all but the last two are from the alphabet |
| Base64.Decode | src/MailApiTransport.php:122 | a string that decodes has exactly the length the encoding of the decoded bytes has |
| Base64.DecodeEncode | src/MailApiTransport.php:122 | decoding the encoding of any byte string gives that byte string back, so `content` loses nothing |
| Base64.EncodeDecode | src/MailApiTransport.php:122 | every string that decodes is the encoding of what it decodes to (the encoding is canonical) |
| Base64.DecodeIffEncode | src/MailApiTransport.php:122 | `Decode(s) == Some(b)` if and only if `Encode(b) == s` |
| Transport.AddFrom | src/MailApiTransport.php:95-108 | only `from_email`/`from_name` change; `from_email` is the first sender's address when it is truthy, `from_name` its display name when both are truthy; each key is left alone otherwise |
| Transport.AddSubject | src/MailApiTransport.php:138-144 | only `subject` changes, and it is the message's subject exactly when that subject is truthy |
| Transport.AddContent | src/MailApiTransport.php:150-160 | the body is written, unchanged, under `html` when the type is `text/html` or is neither known type and stripping tags changes the body, and under `text` otherwise; no other key changes |
| Transport.FormatContacts | src/MailApiTransport.php:169-174 | the loop formats every contact, in input order, as the specification function `FormatAll` does |
| Transport.FormatAll | src/MailApiTransport.php:172-174 | one formatted entry per contact, at the same position, `Display <addr>` or the bare address |
| Transport.AddKind | src/MailApiTransport.php:168-179 | one kind's key holds the `", "`-joined formatted list when the list is non-empty and is untouched otherwise; no other key changes |
| Transport.AddRecipients | src/MailApiTransport.php:166-180 | after the loop over To, Cc, Bcc, only `to`/`cc`/`bcc` have changed, each as `AddKind` says |
| Transport.FormatAppend | src/MailApiTransport.php:172-177 | the joined list of `a + b` is the joined list of `a`, then `", "`, then that of `b`: entries stay in input order |
| Transport.AttachmentParts | src/MailApiTransport.php:118-119 | the attachment children, which are exactly the children that are attachments |
| Transport.AddAttachments | src/MailApiTransport.php:114-132 | only `attachments` changes; with children present it is the list of the attachment children's entries, in order; without children nothing is written |
| Transport.PartsAppend | src/MailApiTransport.php:118-119 | the attachment parts of `xs + ys` are those of `xs` followed by those of `ys`, so the children's order is kept |
| Transport.PartsSingle | src/MailApiTransport.php:118-119 | a single child contributes itself when it is an attachment and nothing otherwise; with `PartsAppend` this fixes the attachment parts completely: each attachment child once, in order |
| Transport.EntriesAppend | src/MailApiTransport.php:118-128 | the entries of `xs + ys` are those of `xs` followed by those of `ys`: one append per child, in `foreach` order |
| Transport.EntriesSingle | src/MailApiTransport.php:119-128 | a single child yields its own entry when it is an attachment and no entry otherwise |
| Transport.EntriesFollowAttachments | src/MailApiTransport.php:116-130 | the list has one entry per attachment child, in order, and no entry for any other child |
| Transport.EntryFaithful | src/MailApiTransport.php:120-127 | an entry has `filename`, `content` and `content_type`, plus `content_id` exactly when the part is not a plain `attachment` and has a non-empty id; `content` decodes back to the body; `content_id` is `cid:` followed by the id |
| Transport.StepsCompose | src/MailApiTransport.php:59-70 | starting from `api_key` alone, the five steps in order yield a JSON meeting `JsonSpec`: only known keys, the API key, and each group present exactly when its condition holds |
| Transport.BuildPayload | src/MailApiTransport.php:59-70 | the payload built by `send` has the JSON content-type header and meets `JsonSpec` |
| Transport.PayloadSpecUnique | src/MailApiTransport.php:59-70 | two payloads meeting the specification for the same message and key are equal, so building is deterministic |
| Transport.Send | src/MailApiTransport.php:54-89 | success exactly when the response has status 200; then the message gains `X-Message-ID` and `X-SES-Message-ID` carrying `message_id`, and the count is the number of To, Cc and Bcc recipients; otherwise the error says `Request to <endpoint> API failed.` and carries code 0 and the body for a non-200 response, or the thrown exception's code and message |
| Jobs.MailApiJob.constructor | src/MailApiJob.php:35-46 | the endpoint and payload are stored, `tries` is 1440 and nothing has been released |
| Jobs.MailApiJob.Release | src/MailApiJob.php:65 | the queue's release records exactly one entry with the given delay |
| Jobs.MailApiJob.Handle | src/MailApiJob.php:52-67 | status 200 leads to no release; any other status or a thrown request leads to exactly one release of 60 seconds; endpoint, payload and `tries` are unchanged, and every recorded delay stays 60 |
| Jobs.MailApiJob.Failed | src/MailApiJob.php:69-72 | always exactly one release of 60 seconds; nothing else changes |

## Left out

- The Guzzle HTTP calls (src/MailApiTransport.php:72, src/MailApiJob.php:55-59) are network I/O. They are the `post` parameter, so the connect timeout and the `header` request option are not interpreted.
- `json_decode` of the success body is left out: the response's `message_id` is given directly as part of the outcome.
- The framework hooks `beforeSendPerformed` and `sendPerformed` (src/MailApiTransport.php:56, 86) dispatch framework send events, which the model does not represent.
- The `$failedRecipients` reference is left out, because this code never sets it.
- Transport.Send: the returned count is the total length of the To, Cc and Bcc lists. `numberOfRecipients` belongs to the framework base class, which is not part of this model; it merges the address-keyed lists, so an address that appears in both To and Cc may count once there. The model's count is therefore an upper bound: it deliberately counts a shared address once per list.
- Exceptions raised while building the payload are left out. The message accessors are given values, so every step is total.
- PHP arrays are ordered and keyed by address. The model's JSON is a map, so key order in the serialized payload is not captured. Contact lists are sequences, so two contacts with the same address are not merged.
- `strip_tags` is not implemented. Its result is the `stripTags` parameter.
- Attempt counting and the cut-off after 1440 tries belong to the queue runtime. Only the constant is modelled.
- A `release` on a job that was not taken from a queue does nothing in the framework. The model always records the release.
- Jobs.MailApiJob.Failed: the exception argument is a string and is never looked at.
- The service provider, the configuration file and the development recipient redirection are not part of this model: they are wiring and configuration outside the transport and the job.
