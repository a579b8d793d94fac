# Recognition relay: request signing and response mapping

This project models the `/api/recognize` handler of a small Express backend
(`server.js`). The handler accepts one uploaded audio sample and signs a
request for the ACRCloud identify API. It posts the sample there as a
multipart form and relays the provider's JSON answer, or a normalised
`{ error }` object, to the caller.

The model is written over plain values, except for the form body. The
source builds the form by successive `append` calls on one `FormData`
object, so the model has a `FormBody` class whose `Append` method grows an
ordered field list in place. `Relay.Handle` is the handler body written
imperatively, and it is proved equal to the pure functions beside
it.

Files:

- `wrappers.dfy`: `Option`, which stands for JavaScript's `undefined`.
- `bytes.dfy`: the octet type of the uploaded content and of the HMAC inputs.
- `text.dfy`: `Array.prototype.join` and `String.prototype.split` with a
  one-character separator, and `String(n)` for integers. It proves that
  `split` undoes `join` and that the decimal rendering reads back.
- `utf8.dfy`: the UTF-8 encoding `Buffer.from(s, 'utf-8')` applies to the
  string to sign and to the HMAC key, with a decoder partner and a proof
  that decoding undoes encoding. Different strings therefore give
  different HMAC inputs.
- `json.dfy`: parsed JSON values, optional-chaining member access and
  JavaScript truthiness. The error path needs all three.
- `form.dfy`: the ordered form parts, the `FormBody` class and lookup of a
  part by name.
- `relay.dfy`: the handler and its pieces. These are the `recordType`
  default, the timestamp, the string to sign, the signature, the form
  parts and the result mapping.
- `relay_properties.dfy`: the handler's guarantees, stated and proved over
  those pieces.

The inputs that come from the environment are parameters:

- the millisecond clock reading `nowMs`;
- the credentials (`Config`);
- HMAC-SHA1 followed by base64. This is `Signer`, an arbitrary function of
  key bytes and message bytes, so determinism is its only property;
- the provider's answer to the POST. This is `Provider`, an arbitrary
  function of the POST the handler makes.

An error response is usually read as `{ error: string }`, but the code
sends `error.response?.data?.status?.msg || error.message`, so any
truthy JSON value under `status.msg` is relayed as it is, a number or an
object included. A present but falsy `msg` (for example `""` or `0`) falls
back to the transport message. The model follows the code: the error field
is a JSON value (`Relay.ErrorText`).

## Model

| member | source | states |
|---|---|---|
| `Relay.Handle` | server.js:30-95 | Without an uploaded file the response is 400 `{error: "No audio file provided"}` and no POST is made. With a file, exactly one POST goes to `https://identify-eu-west-1.acrcloud.com/v1/identify`, carrying the parts `OutboundForm` lists, and the response is the mapping of the provider's outcome. |
| `Form.FormBody.constructor` | server.js:63 | A new form has no parts. |
| `Form.FormBody.Append` | server.js:64-75 | Each `append` adds one part at the end and leaves the earlier parts as they were. |
| `Relay.DefaultRecordType` | server.js:45 | The record type is the caller's value when it is a non-empty string, and `audio` when the caller's value is absent or empty. It is never empty. |
| `Relay.Timestamp` | server.js:47 | The timestamp `t` is the floor of the clock reading in seconds: `1000*t <= nowMs < 1000*t + 1000`. |
| `RelayProperties.StringToSignFields` | server.js:44-56 | If the access key has no newline, splitting the string to sign on newlines gives exactly `POST`, `/v1/identify`, the access key, `audio`, `1` and the decimal timestamp, in that order. |
| `RelayProperties.StringToSignSpelled` | server.js:49-56 | The string to sign is `POST\n/v1/identify\n<accessKey>\naudio\n1\n<timestamp>`, character for character. |
| `RelayProperties.SignedInputDeterminesTimestamp` | server.js:47-61 | The UTF-8 bytes handed to the HMAC determine the timestamp: two different seconds never give the same signed input. |
| `RelayProperties.FormFieldOrder` | server.js:63-75 | The form parts are `sample`, `access_key`, `data_type`, `signature_version`, `signature`, `timestamp`, `sample_bytes`, `record_type`, in that order, and no name appears twice. |
| `RelayProperties.FormLookups` | server.js:63-75 | Read by name, the form gives these values. `sample` is the file's bytes with its original name and content type. `access_key` is the access key. `data_type` is `audio`. `signature_version` is `1`. `signature` is the signer over the UTF-8 secret and the UTF-8 string to sign. `timestamp` is the decimal timestamp. `sample_bytes` is the decimal file size. `record_type` is the defaulted record type. |
| `RelayProperties.TimestampShared` | server.js:47-73 | For an access key without a newline, the last field of the string to sign and the `timestamp` part are the same text. That text reads back as the whole seconds of the clock reading. |
| `RelayProperties.SampleBytesIsSize` | server.js:74 | `sample_bytes` is the decimal byte length of the uploaded content, and it reads back as that length. |
| `RelayProperties.RecordTypeAsymmetry` | server.js:45-75 | For an access key without a newline, the fourth signed field is always `audio`. The `record_type` part carries the caller's defaulted value. The two differ whenever the caller sends a non-empty value other than `audio`. |
| `RelayProperties.SignatureIgnoresRecordType` | server.js:49-75 | Forms built for two record types agree on the first seven parts, the signature included. Their `record_type` parts differ exactly when the record types differ. |
| `RelayProperties.ClipScenario` | server.js:45-75 | A 10-byte `clip.wav` of type `audio/wav` with no `recordType` is sent with `record_type=audio`, `sample_bytes=10` and its own name and type. Its signature is over a string ending in `\n1\n<timestamp>`. |
| `Relay.ErrorText` | server.js:93 | The error is the provider's `status.msg` when the reply body has one and it is truthy. Otherwise it is the transport's error message. |
| `Relay.RelayResult` | server.js:88-94 | A successful reply is relayed unchanged with status 200. A failure gives status 500 with body `{error: ErrorText(...)}`. |
| `RelayProperties.ProviderMessageWins` | server.js:92-94 | A reply body whose `status` object has a truthy `msg` gives 500 `{error: msg}`, whatever the transport message. |
| `RelayProperties.TransportMessageOtherwise` | server.js:92-94 | These cases give 500 `{error: <transport message>}`: no reply body, a body that is not an object, no `status` object, no `msg`, or a falsy `msg`. |
| `RelayProperties.LimitExceededScenario` | server.js:90-94 | A reply `{status: {msg: "Limit exceeded"}}` reaches the caller as 500 `{error: "Limit exceeded"}`. |
| `Text.SplitJoin` | server.js:49-56 | For a non-empty list of fields none of which contains the separator, `split` on the separator undoes `join`. |
| `Text.DecimalRoundTrip` | server.js:55 | The decimal rendering of an integer, as `join` and `append` produce it, reads back as that integer. |
| `Utf8.DecodeEncode` | server.js:60 | Decoding the UTF-8 bytes of a string gives the string back. |
| `Utf8.EncodeInjective` | server.js:60 | Different strings have different UTF-8 encodings. |

## Left out

- Express app setup, the CORS allow-list and the `express.json` middleware (server.js:10, 21-27) are framework configuration with no logic of their own.
- Multer's memory storage and its 5 MiB limit (server.js:13-18) are not modelled. The library enforces the limit before the handler runs. The upload reaches the model as an `Upload` value, and `SizeMatches` states the parser's guarantee that the recorded size is the byte length.
- The HTTPS POST through axios and its options (server.js:79-85) become the `Provider` parameter. The multipart wire encoding done by the form-data library is also left out: the form is modelled as an ordered list of named parts.
- The HMAC-SHA1 digest and the base64 encoding (server.js:58-61) become the `Signer` parameter. Only the UTF-8 conversion of key and message is modelled.
- `Date.now()` and the environment variables read through dotenv (server.js:8, 42-43, 47, 98) become the parameters `nowMs` and `Config`. The credentials are taken to be defined strings. An unset variable would make `join` render an empty field and `createHmac` throw, and that case is not modelled.
- Floating-point division in `Math.floor(Date.now() / 1000)` is modelled as exact floor division, which is what it computes for any clock reading a double holds exactly. The exponent notation JavaScript uses for numbers of 1e21 and above is not modelled.
- The `recordType` body field is modelled as an optional string. A non-string value (an array from a repeated field) is not modelled.
- JavaScript strings are UTF-16, and `Buffer.from` replaces a lone surrogate with U+FFFD. Model characters are Unicode scalar values, so that case cannot arise. The decoder, which serves only as the encoder's partner, does not reject overlong forms.
- Exceptions other than a failed POST are not modelled, for instance a failure inside `res.json`. Every failure the model reaches comes from the `Provider` outcome.
- The `console.log`/`console.error` diagnostics and `app.listen` (server.js:36-39, 77, 87, 91, 99) have side effects only.
