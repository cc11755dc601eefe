/** The mail transport: turns a message into the provider's JSON payload in
    five steps (sender, subject, content, recipients, attachments), posts it to
    the configured endpoint and interprets the response. Each `add` step takes
    the payload and gives back the updated one, which is how the by-reference
    `$payload` is threaded through the steps. */
module Transport {
  import opened MailTypes
  import Base64

  /** The transport's configuration, fixed at construction. The HTTP client is the
      `post` parameter of `Send`. */
  datatype MailApiTransport = MailApiTransport(apiKey: string, endpoint: string)

  /** The transport exception `send` raises: its message, the code of the
      exception it wraps and that exception's message. */
  datatype TransportError = TransportError(message: string, code: int, previous: string)

  /** What a successful `send` leaves behind: the message with its new headers,
      and the number of recipients it reports. */
  datatype Sent = Sent(message: Message, recipients: nat)

  datatype Result<T> = Ok(value: T) | Err(error: TransportError)

  /** The keys a payload built by `send` can hold under `json`. */
  const PAYLOAD_KEYS: set<string> :=
    {"api_key", "from_email", "from_name", "subject", "html", "text", "to", "cc", "bcc", "attachments"}

  /** The two maps agree on `key`: absent from both, or present in both with one value. */
  predicate Agree(m: Json, m': Json, key: string) {
    (key !in m && key !in m') || (key in m && key in m' && m[key] == m'[key])
  }

  /** `m'` differs from `m` at most on `keys`. */
  ghost predicate Outside(m: Json, m': Json, keys: set<string>) {
    forall key {:trigger Agree(m, m', key)} :: key !in keys ==> Agree(m, m', key)
  }

  // ---------------------------------------------------------------- sender

  /** The message's first sender address is present and truthy. */
  predicate HasSender(msg: Message) {
    |msg.from| > 0 && Truthy(msg.from[0].address)
  }

  /** What addFrom does to the JSON: it changes at most `from_email` and
      `from_name`, writes the first sender's address when it is truthy and its
      display name when that is truthy too, and leaves both keys alone otherwise. */
  ghost predicate FromWritten(msg: Message, before: Json, after: Json) {
    && Outside(before, after, {"from_email", "from_name"})
    && (HasSender(msg) ==> "from_email" in after && after["from_email"] == Str(msg.from[0].address))
    && (HasSender(msg) && TruthyOpt(msg.from[0].display) ==>
          "from_name" in after && after["from_name"] == Str(msg.from[0].display.value))
    && (!HasSender(msg) ==> Agree(before, after, "from_email"))
    && (!(HasSender(msg) && TruthyOpt(msg.from[0].display)) ==> Agree(before, after, "from_name"))
  }

  /** addFrom: `from_email` is the first sender's address, `from_name` its display
      name when that is truthy; no later sender is looked at. */
  method AddFrom(msg: Message, p: Payload) returns (p': Payload)
    ensures p'.header == p.header
    ensures FromWritten(msg, p.json, p'.json)
  {
    p' := p;
    // key($from) is the first address, or null for an empty sender list
    var fromAddress: Option<string> := if |msg.from| > 0 then Some(msg.from[0].address) else None;
    if TruthyOpt(fromAddress) {
      p' := p'.(json := p'.json["from_email" := Str(fromAddress.value)]);
      var fromName := msg.from[0].display;
      if TruthyOpt(fromName) {
        p' := p'.(json := p'.json["from_name" := Str(fromName.value)]);
      }
    }
  }

  // ---------------------------------------------------------------- subject

  /** What addSubject does to the JSON: only `subject` may change; it is the
      subject when that is truthy and is left alone otherwise. */
  ghost predicate SubjectWritten(msg: Message, before: Json, after: Json) {
    && Outside(before, after, {"subject"})
    && (TruthyOpt(msg.subject) ==> "subject" in after && after["subject"] == Str(msg.subject.value))
    && (!TruthyOpt(msg.subject) ==> Agree(before, after, "subject"))
  }

  /** addSubject: `subject` is the message subject, unchanged, when it is truthy. */
  method AddSubject(msg: Message, p: Payload) returns (p': Payload)
    ensures p'.header == p.header
    ensures SubjectWritten(msg, p.json, p'.json)
  {
    p' := p;
    var subject := msg.subject;
    if TruthyOpt(subject) {
      p' := p'.(json := p'.json["subject" := Str(subject.value)]);
    }
  }

  // ---------------------------------------------------------------- content

  /** The body goes under `html`: declared `text/html`, or declared neither
      `text/html` nor `text/plain` and changed by stripping tags. */
  predicate HtmlContent(msg: Message, stripTags: string -> string) {
    || msg.contentType == "text/html"
    || (msg.contentType != "text/plain" && stripTags(msg.body) != msg.body)
  }

  /** What addContent does to the JSON: the body is written under `html` or
      `text` as `HtmlContent` decides, and nothing else changes. */
  ghost predicate ContentWritten(msg: Message, stripTags: string -> string, before: Json, after: Json) {
    && Outside(before, after, {"html", "text"})
    && (HtmlContent(msg, stripTags) ==> after == before["html" := Str(msg.body)])
    && (!HtmlContent(msg, stripTags) ==> after == before["text" := Str(msg.body)])
  }

  /** addContent: writes the body, unchanged, under exactly one of `html` and `text`. */
  method AddContent(msg: Message, stripTags: string -> string, p: Payload) returns (p': Payload)
    ensures p'.header == p.header
    ensures ContentWritten(msg, stripTags, p.json, p'.json)
  {
    var contentType := msg.contentType;
    var body := msg.body;
    if contentType != "text/html" && contentType != "text/plain" {
      contentType := if stripTags(body) != body then "text/html" else "text/plain";
    }
    var key := if contentType == "text/html" then "html" else "text";
    p' := p.(json := p.json[key := Str(msg.body)]);
    forall other | other !in {"html", "text"}
      ensures Agree(p.json, p'.json, other)
    {
    }
  }

  // ---------------------------------------------------------------- recipients

  datatype Kind = To | Cc | Bcc

  function Contacts(msg: Message, kind: Kind): (r: seq<Contact>) {
    match kind
    case To => msg.to
    case Cc => msg.cc
    case Bcc => msg.bcc
  }

  /** The payload key of a recipient kind: its lower-cased name. */
  function Field(kind: Kind): (r: string) {
    match kind
    case To => "to"
    case Cc => "cc"
    case Bcc => "bcc"
  }

  /** One contact as the provider expects it. */
  function Format(c: Contact): (r: string) {
    if TruthyOpt(c.display) then c.display.value + " <" + c.address + ">" else c.address
  }

  /** The formatted contacts, in input order. */
  function FormatAll(cs: seq<Contact>): (r: seq<string>)
    ensures |r| == |cs|
    ensures forall i :: 0 <= i < |cs| ==> r[i] == Format(cs[i])
  {
    if cs == [] then [] else FormatAll(cs[..|cs| - 1]) + [Format(cs[|cs| - 1])]
  }

  /** `implode`: the parts with `sep` between each two neighbours. */
  function Join(sep: string, parts: seq<string>): (r: string) {
    if |parts| == 0 then ""
    else if |parts| == 1 then parts[0]
    else Join(sep, parts[..|parts| - 1]) + sep + parts[|parts| - 1]
  }

  /** After addRecipients, the key of `kind` holds the formatted list when the
      list is non-empty, and is as it was otherwise. */
  predicate RecipientsWritten(msg: Message, before: Json, after: Json, kind: Kind) {
    if Contacts(msg, kind) != [] then
      Field(kind) in after && after[Field(kind)] == Str(Join(", ", FormatAll(Contacts(msg, kind))))
    else
      Agree(before, after, Field(kind))
  }

  /** The inner loop of addRecipients: each contact formatted, in order. */
  method FormatContacts(contacts: seq<Contact>) returns (formatted: seq<string>)
    ensures formatted == FormatAll(contacts)
  {
    formatted := [];
    for i := 0 to |contacts|
      invariant formatted == FormatAll(contacts[..i])
    {
      var c := contacts[i];
      formatted := formatted + [if TruthyOpt(c.display) then c.display.value + " <" + c.address + ">" else c.address];
      assert contacts[..i + 1][..i] == contacts[..i];
    }
    assert contacts[..|contacts|] == contacts;
  }

  /** Distinct recipient kinds have distinct keys. */
  lemma FieldInjective(a: Kind, b: Kind)
    ensures a != b ==> Field(a) != Field(b)
  {
  }

  /** One pass of the outer loop of addRecipients: the list of `kind` is
      formatted and written under its key when it is non-empty. */
  method AddKind(msg: Message, kind: Kind, p: Payload) returns (p': Payload)
    ensures p'.header == p.header
    ensures RecipientsWritten(msg, p.json, p'.json, kind)
    ensures forall key {:trigger Agree(p.json, p'.json, key)} :: key != Field(kind) ==> Agree(p.json, p'.json, key)
  {
    p' := p;
    var formatted := FormatContacts(Contacts(msg, kind));
    if |formatted| > 0 {
      p' := p'.(json := p'.json[Field(kind) := Str(Join(", ", formatted))]);
    }
  }

  /** The position of a kind in the order To, Cc, Bcc. */
  function Rank(kind: Kind): (r: nat) {
    match kind
    case To => 0
    case Cc => 1
    case Bcc => 2
  }

  /** What addRecipients does to the JSON: only `to`, `cc` and `bcc` may change,
      each as `RecipientsWritten` says. */
  ghost predicate AllRecipientsWritten(msg: Message, before: Json, after: Json) {
    && Outside(before, after, {"to", "cc", "bcc"})
    && (forall kind :: RecipientsWritten(msg, before, after, kind))
  }

  /** addRecipients: for each of To, Cc and Bcc in turn, the key `to`/`cc`/`bcc`
      is written when the list is non-empty, with the list formatted in order. */
  method AddRecipients(msg: Message, p: Payload) returns (p': Payload)
    ensures p'.header == p.header
    ensures AllRecipientsWritten(msg, p.json, p'.json)
  {
    p' := p;
    var kinds := [To, Cc, Bcc];
    for k := 0 to |kinds|
      invariant p'.header == p.header
      invariant RecipientsDone(msg, p.json, p'.json, k)
    {
      var kind := kinds[k];
      ghost var before := p'.json;
      p' := AddKind(msg, kind, p');
      RecipientsStep(msg, p.json, before, p'.json, kind);
    }
  }

  /** The loop invariant of addRecipients after the first `k` kinds. */
  ghost predicate RecipientsDone(msg: Message, start: Json, now: Json, k: nat) {
    && Outside(start, now, {"to", "cc", "bcc"})
    && (forall kind :: Rank(kind) < k ==> RecipientsWritten(msg, start, now, kind))
    && (forall kind :: Rank(kind) >= k ==> Agree(start, now, Field(kind)))
  }

  lemma RecipientsStep(msg: Message, start: Json, before: Json, after: Json, kind: Kind)
    requires RecipientsDone(msg, start, before, Rank(kind))
    requires RecipientsWritten(msg, before, after, kind)
    requires forall key {:trigger Agree(before, after, key)} :: key != Field(kind) ==> Agree(before, after, key)
    ensures RecipientsDone(msg, start, after, Rank(kind) + 1)
  {
    forall other: Kind | other != kind
      ensures Agree(before, after, Field(other))
    {
      FieldInjective(other, kind);
    }
    forall key | key !in {"to", "cc", "bcc"}
      ensures Agree(start, after, key)
    {
      assert Field(kind) in {"to", "cc", "bcc"};
      assert Agree(start, before, key) && Agree(before, after, key);
    }
  }

  // ---------------------------------------------------------------- attachments

  /** The loose `getId() != NULL` of the source: an empty id compares equal to null. */
  predicate HasContentId(a: Part)
    requires a.Attachment?
  {
    a.disposition != "attachment" && a.id.Some? && a.id.value != ""
  }

  /** The payload entry of one attachment. */
  function AttachmentEntry(a: Part): (r: Value)
    requires a.Attachment?
  {
    var fields := map["filename" := Str(a.filename), "content" := Str(Base64.Encode(a.body)), "content_type" := Str(a.contentType)];
    Obj(if HasContentId(a) then fields["content_id" := Str("cid:" + a.id.value)] else fields)
  }

  /** The attachment children, in order. */
  function AttachmentParts(cs: seq<Part>): (r: seq<Part>)
    ensures |r| <= |cs|
    ensures forall k :: 0 <= k < |r| ==> r[k].Attachment?
    ensures forall x :: x in r <==> x in cs && x.Attachment?
  {
    if cs == [] then []
    else AttachmentParts(cs[..|cs| - 1]) + (if cs[|cs| - 1].Attachment? then [cs[|cs| - 1]] else [])
  }

  /** The `attachments` list built from the children: one entry per attachment child. */
  function AttachmentEntries(cs: seq<Part>): (r: seq<Value>) {
    if cs == [] then []
    else AttachmentEntries(cs[..|cs| - 1]) + (if cs[|cs| - 1].Attachment? then [AttachmentEntry(cs[|cs| - 1])] else [])
  }

  /** What addAttachments does to the JSON: only `attachments` may change; it is
      the list of entries when the message has children and is left alone otherwise. */
  ghost predicate AttachmentsWritten(msg: Message, before: Json, after: Json) {
    && Outside(before, after, {"attachments"})
    && (msg.children != [] ==>
          "attachments" in after && after["attachments"] == Arr(AttachmentEntries(msg.children)))
    && (msg.children == [] ==> Agree(before, after, "attachments"))
  }

  /** addAttachments: when the message has children, `attachments` is the list of
      their attachment entries (possibly empty); otherwise nothing is written. */
  method AddAttachments(msg: Message, p: Payload) returns (p': Payload)
    ensures p'.header == p.header
    ensures AttachmentsWritten(msg, p.json, p'.json)
  {
    p' := p;
    var children := msg.children;
    if |children| > 0 {
      p' := p'.(json := p'.json["attachments" := Arr([])]);
      forall key | key !in {"attachments"}
        ensures Agree(p.json, p'.json, key)
      {
      }
      for i := 0 to |children|
        invariant p'.header == p.header
        invariant Outside(p.json, p'.json, {"attachments"})
        invariant "attachments" in p'.json && p'.json["attachments"] == Arr(AttachmentEntries(children[..i]))
      {
        var part := children[i];
        if part.Attachment? {
          var a := map["filename" := Str(part.filename), "content" := Str(Base64.Encode(part.body)), "content_type" := Str(part.contentType)];
          if part.disposition != "attachment" && part.id.Some? && part.id.value != "" {
            a := a["content_id" := Str("cid:" + part.id.value)];
          }
          assert Obj(a) == AttachmentEntry(part);
          var list := p'.json["attachments"].items;
          ghost var before := p'.json;
          p' := p'.(json := p'.json["attachments" := Arr(list + [Obj(a)])]);
          forall key | key !in {"attachments"}
            ensures Agree(p.json, p'.json, key)
          {
            assert Agree(p.json, before, key);
          }
        }
        assert children[..i + 1][..i] == children[..i];
        assert AttachmentEntries(children[..i + 1]) ==
          AttachmentEntries(children[..i]) + (if part.Attachment? then [AttachmentEntry(part)] else []);
      }
      assert children[..|children|] == children;
    }
  }

  // ---------------------------------------------------------------- properties of the steps

  lemma {:induction false} JoinAppend(sep: string, xs: seq<string>, ys: seq<string>)
    requires xs != [] && ys != []
    ensures Join(sep, xs + ys) == Join(sep, xs) + sep + Join(sep, ys)
    decreases |ys|
  {
    var zs := xs + ys;
    if |ys| == 1 {
      assert zs[..|zs| - 1] == xs;
    } else {
      var ys' := ys[..|ys| - 1];
      assert zs[..|zs| - 1] == xs + ys';
      JoinAppend(sep, xs, ys');
    }
  }

  lemma {:induction false} FormatAllAppend(a: seq<Contact>, b: seq<Contact>)
    ensures FormatAll(a + b) == FormatAll(a) + FormatAll(b)
  {
    var l, r := FormatAll(a + b), FormatAll(a) + FormatAll(b);
    assert |l| == |r|;
    forall i | 0 <= i < |l| ensures l[i] == r[i] {
      assert (a + b)[i] == if i < |a| then a[i] else b[i - |a|];
    }
  }

  /** Recipient lists are formatted entry by entry, in input order: the list
      `a + b` formats as `a`'s formatting, ", ", then `b`'s. */
  lemma FormatAppend(a: seq<Contact>, b: seq<Contact>)
    requires a != [] && b != []
    ensures Join(", ", FormatAll(a + b)) == Join(", ", FormatAll(a)) + ", " + Join(", ", FormatAll(b))
  {
    FormatAllAppend(a, b);
    JoinAppend(", ", FormatAll(a), FormatAll(b));
  }

  /** The attachment parts of the children taken together are those of the
      first children followed by those of the rest: order is kept. */
  lemma {:induction false} PartsAppend(xs: seq<Part>, ys: seq<Part>)
    ensures AttachmentParts(xs + ys) == AttachmentParts(xs) + AttachmentParts(ys)
    decreases |ys|
  {
    var zs := xs + ys;
    if ys == [] {
      assert zs == xs;
    } else {
      var ys', y := ys[..|ys| - 1], ys[|ys| - 1];
      var tail := if y.Attachment? then [y] else [];
      assert zs[..|zs| - 1] == xs + ys' && zs[|zs| - 1] == y;
      assert AttachmentParts(zs) == AttachmentParts(xs + ys') + tail;
      assert AttachmentParts(ys) == AttachmentParts(ys') + tail;
      PartsAppend(xs, ys');
      assert AttachmentParts(xs) + AttachmentParts(ys') + tail == AttachmentParts(xs) + (AttachmentParts(ys') + tail);
    }
  }

  /** One child contributes itself when it is an attachment and nothing otherwise,
      so with `PartsAppend` each attachment child appears exactly once, in place. */
  lemma PartsSingle(x: Part)
    ensures AttachmentParts([x]) == if x.Attachment? then [x] else []
  {
    assert [x][..0] == [];
  }

  /** The entries of the children taken together are those of the first children
      followed by those of the rest. */
  lemma {:induction false} EntriesAppend(xs: seq<Part>, ys: seq<Part>)
    ensures AttachmentEntries(xs + ys) == AttachmentEntries(xs) + AttachmentEntries(ys)
    decreases |ys|
  {
    var zs := xs + ys;
    if ys == [] {
      assert zs == xs;
    } else {
      var ys' := ys[..|ys| - 1];
      assert zs[..|zs| - 1] == xs + ys';
      assert zs[|zs| - 1] == ys[|ys| - 1];
      EntriesAppend(xs, ys');
    }
  }

  /** One child yields its entry when it is an attachment and no entry otherwise. */
  lemma EntriesSingle(x: Part)
    ensures AttachmentEntries([x]) == if x.Attachment? then [AttachmentEntry(x)] else []
  {
    assert [x][..0] == [];
  }

  /** The `attachments` list has one entry per attachment child, in order,
      and skips every other child. */
  lemma {:induction false} EntriesFollowAttachments(cs: seq<Part>)
    ensures |AttachmentEntries(cs)| == |AttachmentParts(cs)|
    ensures forall k :: 0 <= k < |AttachmentParts(cs)| ==>
              AttachmentEntries(cs)[k] == AttachmentEntry(AttachmentParts(cs)[k])
  {
    if cs != [] {
      EntriesFollowAttachments(cs[..|cs| - 1]);
    }
  }

  /** An attachment entry has `filename`, `content` and `content_type`, plus
      `content_id` exactly when the part is inline with an id; `content`
      decodes to the body and `content_id` is the id behind `cid:`. */
  lemma EntryFaithful(a: Part)
    requires a.Attachment?
    ensures var e := AttachmentEntry(a);
      && e.Obj?
      && e.fields.Keys == {"filename", "content", "content_type"} + (if HasContentId(a) then {"content_id"} else {})
      && e.fields["filename"] == Str(a.filename)
      && e.fields["content_type"] == Str(a.contentType)
      && e.fields["content"].Str? && Base64.Decode(e.fields["content"].s) == Some(a.body)
      && (HasContentId(a) ==> e.fields["content_id"] == Str("cid:" + a.id.value))
  {
    Base64.DecodeEncode(a.body);
  }

  // ---------------------------------------------------------------- the whole payload

  /** The sender keys of the payload. */
  ghost predicate FromSpec(msg: Message, json: Json) {
    && ("from_email" in json <==> HasSender(msg))
    && (HasSender(msg) ==> json["from_email"] == Str(msg.from[0].address))
    && ("from_name" in json <==> HasSender(msg) && TruthyOpt(msg.from[0].display))
    && ("from_name" in json ==> json["from_name"] == Str(msg.from[0].display.value))
  }

  ghost predicate SubjectSpec(msg: Message, json: Json) {
    && ("subject" in json <==> TruthyOpt(msg.subject))
    && ("subject" in json ==> json["subject"] == Str(msg.subject.value))
  }

  /** Exactly one of `html` and `text`, holding the body. */
  ghost predicate ContentSpec(msg: Message, stripTags: string -> string, json: Json) {
    && ("html" in json <==> HtmlContent(msg, stripTags))
    && ("text" in json <==> !HtmlContent(msg, stripTags))
    && ("html" in json ==> json["html"] == Str(msg.body))
    && ("text" in json ==> json["text"] == Str(msg.body))
  }

  ghost predicate RecipientSpec(msg: Message, json: Json) {
    && (forall kind :: Field(kind) in json <==> Contacts(msg, kind) != [])
    && (forall kind :: Field(kind) in json ==> json[Field(kind)] == Str(Join(", ", FormatAll(Contacts(msg, kind)))))
  }

  ghost predicate AttachmentSpec(msg: Message, json: Json) {
    && ("attachments" in json <==> msg.children != [])
    && ("attachments" in json ==> json["attachments"] == Arr(AttachmentEntries(msg.children)))
  }

  /** The payload `send` hands to the client for `msg`, key by key. */
  ghost predicate PayloadSpec(apiKey: string, msg: Message, stripTags: string -> string, p: Payload) {
    && p.header == ["Content-Type", "application/json"]
    && JsonSpec(apiKey, msg, stripTags, p.json)
  }

  /** The JSON of the payload: only the known keys, the API key, and each group. */
  ghost predicate JsonSpec(apiKey: string, msg: Message, stripTags: string -> string, json: Json) {
    && json.Keys <= PAYLOAD_KEYS
    && "api_key" in json && json["api_key"] == Str(apiKey)
    && FromSpec(msg, json)
    && SubjectSpec(msg, json)
    && ContentSpec(msg, stripTags, json)
    && RecipientSpec(msg, json)
    && AttachmentSpec(msg, json)
  }

  lemma OutsideTrans(a: Json, b: Json, c: Json, f: set<string>, g: set<string>)
    requires Outside(a, b, f) && Outside(b, c, g)
    ensures Outside(a, c, f + g)
  {
    forall key | key !in f + g
      ensures Agree(a, c, key)
    {
      assert Agree(a, b, key) && Agree(b, c, key);
    }
  }

  lemma FromKept(msg: Message, a: Json, b: Json, f: set<string>)
    requires FromSpec(msg, a) && Outside(a, b, f) && "from_email" !in f && "from_name" !in f
    ensures FromSpec(msg, b)
  {
    assert Agree(a, b, "from_email") && Agree(a, b, "from_name");
  }

  lemma SubjectKept(msg: Message, a: Json, b: Json, f: set<string>)
    requires SubjectSpec(msg, a) && Outside(a, b, f) && "subject" !in f
    ensures SubjectSpec(msg, b)
  {
    assert Agree(a, b, "subject");
  }

  lemma ContentKept(msg: Message, stripTags: string -> string, a: Json, b: Json, f: set<string>)
    requires ContentSpec(msg, stripTags, a) && Outside(a, b, f) && "html" !in f && "text" !in f
    ensures ContentSpec(msg, stripTags, b)
  {
    assert Agree(a, b, "html") && Agree(a, b, "text");
  }

  lemma RecipientsKept(msg: Message, a: Json, b: Json, f: set<string>)
    requires RecipientSpec(msg, a) && Outside(a, b, f) && "to" !in f && "cc" !in f && "bcc" !in f
    ensures RecipientSpec(msg, b)
  {
    forall kind
      ensures Agree(a, b, Field(kind))
    {
      assert Field(kind) in {"to", "cc", "bcc"};
    }
  }

  /** A key absent before a step that does not write it is absent after. */
  lemma StillAbsent(a: Json, b: Json, f: set<string>, key: string)
    requires key !in a && Outside(a, b, f) && key !in f
    ensures key !in b
  {
    assert Agree(a, b, key);
  }

  lemma FromFirst(msg: Message, a: Json, b: Json)
    requires "from_email" !in a && "from_name" !in a && FromWritten(msg, a, b)
    ensures FromSpec(msg, b)
  {
  }

  lemma SubjectFirst(msg: Message, a: Json, b: Json)
    requires "subject" !in a && SubjectWritten(msg, a, b)
    ensures SubjectSpec(msg, b)
  {
  }

  lemma ContentFirst(msg: Message, stripTags: string -> string, a: Json, b: Json)
    requires "html" !in a && "text" !in a && ContentWritten(msg, stripTags, a, b)
    ensures ContentSpec(msg, stripTags, b)
  {
  }

  lemma RecipientsFirst(msg: Message, a: Json, b: Json)
    requires "to" !in a && "cc" !in a && "bcc" !in a && AllRecipientsWritten(msg, a, b)
    ensures RecipientSpec(msg, b)
  {
    forall kind
      ensures Field(kind) in b <==> Contacts(msg, kind) != []
      ensures Field(kind) in b ==> b[Field(kind)] == Str(Join(", ", FormatAll(Contacts(msg, kind))))
    {
      assert Field(kind) !in a by {
        assert Field(kind) in {"to", "cc", "bcc"};
      }
      assert RecipientsWritten(msg, a, b, kind);
    }
  }

  lemma AttachmentsFirst(msg: Message, a: Json, b: Json)
    requires "attachments" !in a && AttachmentsWritten(msg, a, b)
    ensures AttachmentSpec(msg, b)
  {
  }

  /** Running the five steps on the JSON that holds only `api_key` gives a
      JSON that meets the payload specification. */
  lemma StepsCompose(apiKey: string, msg: Message, stripTags: string -> string,
                     j0: Json, j1: Json, j2: Json, j3: Json, j4: Json, j5: Json)
    requires j0 == map["api_key" := Str(apiKey)]
    requires FromWritten(msg, j0, j1)
    requires SubjectWritten(msg, j1, j2)
    requires ContentWritten(msg, stripTags, j2, j3)
    requires AllRecipientsWritten(msg, j3, j4)
    requires AttachmentsWritten(msg, j4, j5)
    ensures JsonSpec(apiKey, msg, stripTags, j5)
  {
    var f1, f2, f3, f4, f5 := {"from_email", "from_name"}, {"subject"}, {"html", "text"}, {"to", "cc", "bcc"}, {"attachments"};
    FromFirst(msg, j0, j1);
    StillAbsent(j0, j1, f1, "subject");
    SubjectFirst(msg, j1, j2);
    StillAbsent(j0, j1, f1, "html");
    StillAbsent(j1, j2, f2, "html");
    StillAbsent(j0, j1, f1, "text");
    StillAbsent(j1, j2, f2, "text");
    ContentFirst(msg, stripTags, j2, j3);
    OutsideTrans(j0, j1, j2, f1, f2);
    OutsideTrans(j0, j2, j3, f1 + f2, f3);
    StillAbsent(j0, j3, f1 + f2 + f3, "to");
    StillAbsent(j0, j3, f1 + f2 + f3, "cc");
    StillAbsent(j0, j3, f1 + f2 + f3, "bcc");
    RecipientsFirst(msg, j3, j4);
    OutsideTrans(j0, j3, j4, f1 + f2 + f3, f4);
    StillAbsent(j0, j4, f1 + f2 + f3 + f4, "attachments");
    AttachmentsFirst(msg, j4, j5);
    OutsideTrans(j0, j4, j5, f1 + f2 + f3 + f4, f5);
    OutsideTrans(j1, j2, j3, f2, f3);
    OutsideTrans(j1, j3, j4, f2 + f3, f4);
    OutsideTrans(j1, j4, j5, f2 + f3 + f4, f5);
    FromKept(msg, j1, j5, f2 + f3 + f4 + f5);
    OutsideTrans(j2, j3, j4, f3, f4);
    OutsideTrans(j2, j4, j5, f3 + f4, f5);
    SubjectKept(msg, j2, j5, f3 + f4 + f5);
    OutsideTrans(j3, j4, j5, f4, f5);
    ContentKept(msg, stripTags, j3, j5, f4 + f5);
    RecipientsKept(msg, j4, j5, f5);
    KeysWithin(j0, j5, f1 + f2 + f3 + f4 + f5);
    assert Agree(j0, j5, "api_key");
  }

  /** Keys outside the written ones keep their absence. */
  lemma KeysWithin(a: Json, b: Json, f: set<string>)
    requires Outside(a, b, f)
    ensures b.Keys <= a.Keys + f
  {
    forall key | key in b && key !in f
      ensures key in a
    {
      assert Agree(a, b, key);
    }
  }

  /** The payload of `send`: `api_key` first, then the five steps in order. */
  method BuildPayload(t: MailApiTransport, msg: Message, stripTags: string -> string) returns (p: Payload)
    ensures PayloadSpec(t.apiKey, msg, stripTags, p)
  {
    var p0 := Payload(["Content-Type", "application/json"], map["api_key" := Str(t.apiKey)]);
    var p1 := AddFrom(msg, p0);
    var p2 := AddSubject(msg, p1);
    var p3 := AddContent(msg, stripTags, p2);
    var p4 := AddRecipients(msg, p3);
    p := AddAttachments(msg, p4);
    StepsCompose(t.apiKey, msg, stripTags, p0.json, p1.json, p2.json, p3.json, p4.json, p.json);
  }

  /** The specification fixes the payload completely, so building it twice from
      the same message and configuration gives the same payload. */
  lemma PayloadSpecUnique(apiKey: string, msg: Message, stripTags: string -> string, p1: Payload, p2: Payload)
    requires PayloadSpec(apiKey, msg, stripTags, p1) && PayloadSpec(apiKey, msg, stripTags, p2)
    ensures p1 == p2
  {
    assert Field(To) == "to" && Field(Cc) == "cc" && Field(Bcc) == "bcc";
    forall key | key in PAYLOAD_KEYS
      ensures Agree(p1.json, p2.json, key)
    {
    }
    assert p1.json.Keys == p2.json.Keys;
    assert p1.json == p2.json;
  }

  // ---------------------------------------------------------------- send

  /** send: builds the payload, posts it to the endpoint, fails with a transport
      exception unless the response has status 200, and otherwise adds the
      response's `message_id` to the message under both `X-Message-ID` and
      `X-SES-Message-ID` and reports the number of recipients. */
  method Send(t: MailApiTransport, msg: Message, stripTags: string -> string, post: (string, Payload) -> HttpOutcome)
    returns (r: Result<Sent>, ghost request: Payload)
    ensures PayloadSpec(t.apiKey, msg, stripTags, request)
    ensures r.Ok? <==> Delivered(post(t.endpoint, request))
    ensures r.Ok? ==>
              var id := post(t.endpoint, request).messageId;
              && r.value.message == msg.(headers := msg.headers + [Header("X-Message-ID", id), Header("X-SES-Message-ID", id)])
              && r.value.recipients == |msg.to| + |msg.cc| + |msg.bcc|
    ensures r.Err? ==> r.error.message == "Request to " + t.endpoint + " API failed."
    ensures r.Err? && post(t.endpoint, request).Response? ==>
              r.error.code == 0 && r.error.previous == post(t.endpoint, request).body
    ensures r.Err? && post(t.endpoint, request).Thrown? ==>
              r.error.code == post(t.endpoint, request).code && r.error.previous == post(t.endpoint, request).reason
  {
    var payload := BuildPayload(t, msg, stripTags);
    request := payload;
    var response := post(t.endpoint, payload);
    if response.Thrown? {
      r := Err(TransportError("Request to " + t.endpoint + " API failed.", response.code, response.reason));
      return;
    }
    if response.status != 200 {
      // the exception thrown for a non-200 status carries the body and code 0
      r := Err(TransportError("Request to " + t.endpoint + " API failed.", 0, response.body));
      return;
    }
    var messageId := response.messageId;
    var headers := msg.headers + [Header("X-Message-ID", messageId)];
    headers := headers + [Header("X-SES-Message-ID", messageId)];
    r := Ok(Sent(msg.(headers := headers), |msg.to| + |msg.cc| + |msg.bcc|));
  }
}
