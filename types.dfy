/** The values the mail transport works on: the structured message it reads,
    the JSON payload it builds, and the outcome of one HTTP exchange. */
module MailTypes {

  datatype Option<T> = None | Some(value: T)

  /** A byte of an attachment body. */
  type Byte = x: int | 0 <= x < 256

  /** PHP's truthiness of a string: only "" and "0" are false. */
  predicate Truthy(s: string) {
    s != "" && s != "0"
  }

  /** Truthiness of a nullable string: null is false. */
  predicate TruthyOpt(o: Option<string>) {
    o.Some? && Truthy(o.value)
  }

  /** One entry of an address list: the address and its display name, if any. */
  datatype Contact = Contact(address: string, display: Option<string>)

  /** A child part of the message: a file attachment (or embedded file), or any other MIME part. */
  datatype Part =
    | Attachment(filename: string, body: seq<Byte>, contentType: string, disposition: string, id: Option<string>)
    | MimePart

  datatype Header = Header(name: string, value: string)

  /** The mail message as the transport sees it. `from` keeps the order of the
      sender map (address => display name); `headers` are the text headers added so far. */
  datatype Message = Message(
    from: seq<Contact>,
    subject: Option<string>,
    contentType: string,
    body: string,
    to: seq<Contact>,
    cc: seq<Contact>,
    bcc: seq<Contact>,
    children: seq<Part>,
    headers: seq<Header>)

  /** A JSON value as it appears in the payload. */
  datatype Value = Str(s: string) | Arr(items: seq<Value>) | Obj(fields: map<string, Value>)

  type Json = map<string, Value>

  /** The request options handed to the HTTP client: the `header` list and the `json` body. */
  datatype Payload = Payload(header: seq<string>, json: Json)

  /** What one POST gives back: a response (status, body, and the `message_id` of its
      decoded body), or an exception thrown by the client (its code and message). */
  datatype HttpOutcome =
    | Response(status: int, body: string, messageId: string)
    | Thrown(code: int, reason: string)

  /** The only outcome both the transport and the job treat as success. */
  predicate Delivered(o: HttpOutcome) {
    o.Response? && o.status == 200
  }
}
