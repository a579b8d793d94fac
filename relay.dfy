/**
 * The `/api/recognize` handler of the recognition relay (server.js): it takes
 * one uploaded audio sample, signs a request for the ACRCloud identify API,
 * posts the sample as a multipart form and maps the provider's answer to the
 * caller's response.
 *
 * What the handler reads from its environment is a parameter here: the
 * millisecond clock, the credentials, the HMAC-SHA1-then-base64 signer
 * (`Signer`, any deterministic function of key bytes and message bytes) and
 * the provider's answer to the POST (`Provider`).
 */
module Relay {
  import opened Wrappers
  import opened Text
  import opened Json
  import opened Form
  import opened Bytes
  import Utf8

  // ---------------------------------------------------------------------
  // data
  // ---------------------------------------------------------------------

  /** The upload as the multipart parser hands it over: content, declared name and type, size. */
  datatype Upload = Upload(buffer: seq<byte>, originalName: string, mimeType: string, size: nat)

  /** The incoming request: the `audio` file part, if any, and the `recordType` text field, if any. */
  datatype Request = Request(file: Option<Upload>, recordType: Option<string>)

  /** The provider credentials, read once from the process environment. */
  datatype Config = Config(accessKey: string, secretKey: string)

  /** The outbound HTTPS POST: target URL and form parts in order. */
  datatype Post = Post(url: string, form: seq<Field>)

  /**
   * What the POST yields: a 2xx reply with its parsed body, or a failure with
   * the reply body when the provider answered (non-2xx) and the error message.
   */
  datatype Outcome =
    | Replied(data: Json)
    | Failed(response: Option<Json>, message: string)

  datatype Response = Response(status: nat, body: Json)

  /** HMAC-SHA1 under the key bytes over the message bytes, base64-encoded. */
  type Signer = (seq<byte>, seq<byte>) -> string

  type Provider = Post -> Outcome

  const Host := "identify-eu-west-1.acrcloud.com"
  const Endpoint := "/v1/identify"
  const Url := "https://" + Host + Endpoint
  const NoFileMessage := "No audio file provided"

  /** The form part names, in the order the provider receives them. */
  const FormFieldNames := ["sample", "access_key", "data_type", "signature_version",
                           "signature", "timestamp", "sample_bytes", "record_type"]

  /** The parser records the byte length of the content as the size. */
  predicate SizeMatches(u: Upload) { u.size == |u.buffer| }

  // ---------------------------------------------------------------------
  // the pieces of the handler
  // ---------------------------------------------------------------------

  /** `req.body.recordType || 'audio'`: an absent or empty value falls back to `audio`. */
  function DefaultRecordType(given: Option<string>): (r: string)
    ensures r != ""
    ensures given.Some? && given.value != "" ==> r == given.value
    ensures given.None? || given.value == "" ==> r == "audio"
  {
    if given.Some? && given.value != "" then given.value else "audio"
  }

  /** `Math.floor(nowMs / 1000)`: the whole seconds of the clock reading. */
  function Timestamp(nowMs: int): (t: int)
    ensures t * 1000 <= nowMs < t * 1000 + 1000
  {
    nowMs / 1000
  }

  /**
   * The six fields of the string to sign. The record type is the literal
   * `audio` whatever the caller sent; the signature version is `1`.
   */
  function SigningFields(accessKey: string, t: int): seq<string>
  {
    ["POST", Endpoint, accessKey, "audio", "1", IntToDecimal(t)]
  }

  function StringToSign(accessKey: string, t: int): string
  {
    Join(SigningFields(accessKey, t), '\n')
  }

  /** The signature: the signer over the UTF-8 bytes of the secret and of the string to sign. */
  function Signature(sign: Signer, cfg: Config, t: int): string
  {
    sign(Utf8.Encode(cfg.secretKey), Utf8.Encode(StringToSign(cfg.accessKey, t)))
  }

  /** The form parts the handler appends, in order. */
  function OutboundForm(file: Upload, cfg: Config, t: int, recordType: string, sign: Signer): seq<Field>
  {
    [ Field("sample", File(file.buffer, file.originalName, file.mimeType)),
      Field("access_key", Text(cfg.accessKey)),
      Field("data_type", Text("audio")),
      Field("signature_version", Text("1")),
      Field("signature", Text(Signature(sign, cfg, t))),
      Field("timestamp", Text(IntToDecimal(t))),
      Field("sample_bytes", Text(IntToDecimal(file.size))),
      Field("record_type", Text(recordType)) ]
  }

  /**
   * `error.response?.data?.status?.msg || error.message`: the provider's own
   * status message when it sent a truthy one, else the transport's message.
   */
  function ErrorText(data: Option<Json>, message: string): (e: Json)
    ensures var msg := Member(Member(data, "status"), "msg");
      && (msg.Some? && Truthy(msg.value) ==> e == msg.value)
      && (msg.None? || !Truthy(msg.value) ==> e == JString(message))
  {
    var msg := Member(Member(data, "status"), "msg");
    if msg.Some? && Truthy(msg.value) then msg.value else JString(message)
  }

  /** The caller's response once the POST has been made. */
  function RelayResult(o: Outcome): (r: Response)
    ensures o.Replied? ==> r == Response(200, o.data)
    ensures o.Failed? ==> r.status == 500 && r.body == ErrorBody(ErrorText(o.response, o.message))
  {
    match o
    case Replied(data) => Response(200, data)
    case Failed(response, message) => Response(500, ErrorBody(ErrorText(response, message)))
  }

  // ---------------------------------------------------------------------
  // the handler
  // ---------------------------------------------------------------------

  /**
   * The handler body. `sent` is the POST it makes, if any. Without a file it
   * answers 400 and posts nothing; otherwise it builds the form part by part
   * and relays the provider's outcome.
   */
  method Handle(req: Request, cfg: Config, nowMs: int, sign: Signer, provider: Provider)
    returns (resp: Response, sent: Option<Post>)
    ensures req.file.None? ==> sent == None && resp == Response(400, ErrorBody(JString(NoFileMessage)))
    ensures req.file.Some? ==>
      && sent == Some(Post(Url, OutboundForm(req.file.value, cfg, Timestamp(nowMs),
                                             DefaultRecordType(req.recordType), sign)))
      && resp == RelayResult(provider(sent.value))
  {
    if req.file.None? {
      return Response(400, ErrorBody(JString(NoFileMessage))), None;
    }
    var file := req.file.value;
    var recordType := DefaultRecordType(req.recordType);
    var currentTime := Timestamp(nowMs);
    var stringToSign := StringToSign(cfg.accessKey, currentTime);
    var signature := sign(Utf8.Encode(cfg.secretKey), Utf8.Encode(stringToSign));

    var formData := new FormBody();
    formData.Append("sample", File(file.buffer, file.originalName, file.mimeType));
    formData.Append("access_key", Text(cfg.accessKey));
    formData.Append("data_type", Text("audio"));
    formData.Append("signature_version", Text("1"));
    formData.Append("signature", Text(signature));
    formData.Append("timestamp", Text(IntToDecimal(currentTime)));
    formData.Append("sample_bytes", Text(IntToDecimal(file.size)));
    formData.Append("record_type", Text(recordType));

    assert formData.fields == OutboundForm(file, cfg, currentTime, recordType, sign);
    var post := Post(Url, formData.fields);
    sent := Some(post);
    resp := RelayResult(provider(post));
  }
}
