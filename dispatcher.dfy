/** `handleMessage` of the viewer's broker client: the gate on the message's
    binary attachment and the construction of the image record handed to the
    `onMessageReceived` callback. */
module Dispatcher {
  import opened Strings
  import opened Payload

  /** An inbound broker message as `handleMessage` reads it. */
  datatype Message = Message(attachment: Option<Attachment>, applicationMessageId: Option<string>)

  /** The record passed to `onMessageReceived`. */
  datatype ImageRecord = ImageRecord(id: string, base64Data: string, timestamp: string)

  /** JavaScript truthiness of `getBinaryAttachment()`: an absent attachment
      and the empty string are falsy; a buffer is an object, hence truthy,
      even when it holds no byte. */
  predicate IsTruthy(a: Option<Attachment>)
    ensures IsTruthy(a) <==> a.Some? && (a.value.Bytes? || |a.value.text| > 0)
  {
    a.Some? && a.value != Text("")
  }

  /** `getApplicationMessageId() || "img-" + Date.now()`. */
  function RecordId(applicationMessageId: Option<string>, now: nat): (id: string)
    ensures applicationMessageId.Some? && applicationMessageId.value != "" ==> id == applicationMessageId.value
    ensures applicationMessageId.None? || applicationMessageId.value == "" ==> id == "img-" + Decimal(now)
  {
    match applicationMessageId
    case Some(s) => if s != "" then s else "img-" + Decimal(now)
    case None => "img-" + Decimal(now)
  }

  /** Handles one delivery. `None` means the callback is not invoked; `Some(r)`
      means it is invoked once, with `r`. `now` stands for `Date.now()` and
      `isoNow` for `new Date().toISOString()`. */
  method HandleMessage(message: Option<Message>, decodeUri: UriDecoder, now: nat, isoNow: string)
    returns (delivered: Option<ImageRecord>)
    ensures delivered.Some? <==> message.Some? && IsTruthy(message.value.attachment)
    ensures delivered.Some? ==>
      delivered.value.base64Data == Processed(message.value.attachment.value, decodeUri) &&
      delivered.value.id == RecordId(message.value.applicationMessageId, now) &&
      delivered.value.timestamp == isoNow
  {
    delivered := None;
    if message.Some? && IsTruthy(message.value.attachment) {
      var binaryData := message.value.attachment.value;
      var base64Data := ProcessBinaryData(binaryData, decodeUri);
      var imgData := ImageRecord(RecordId(message.value.applicationMessageId, now), base64Data, isoNow);
      delivered := Some(imgData);
    }
  }

  /** The gate lets an empty byte buffer through, and its record carries
      empty base64 text. */
  lemma EmptyBufferIsDelivered(decodeUri: UriDecoder)
    ensures IsTruthy(Some(Bytes([]))) && Processed(Bytes([]), decodeUri) == ""
    ensures !IsTruthy(Some(Text(""))) && !IsTruthy(None)
  {
  }

  /** Two synthesized ids are equal only for the same millisecond; this is
      the only source of collisions between them. */
  lemma SynthesizedIdsCollideOnlyOnSameMillisecond(n: nat, m: nat)
    ensures RecordId(None, n) == RecordId(None, m) <==> n == m
  {
    if RecordId(None, n) == RecordId(None, m) {
      assert Decimal(n) == RecordId(None, n)[4..];
      assert Decimal(m) == RecordId(None, m)[4..];
      DecimalInjective(n, m);
    }
  }
}
