/**
 * What the relay's request building and response mapping guarantee: the
 * fields of the string to sign, the order and contents of the form parts,
 * the shared timestamp, the record-type asymmetry and the error precedence.
 */
module RelayProperties {
  import opened Wrappers
  import opened Text
  import opened Json
  import opened Form
  import opened Relay
  import opened Bytes
  import Utf8

  /**
   * With an access key free of newlines, splitting the string to sign on
   * newlines gives back exactly its six fields, in order.
   */
  lemma StringToSignFields(accessKey: string, t: int)
    requires '\n' !in accessKey
    ensures Split(StringToSign(accessKey, t), '\n')
            == ["POST", "/v1/identify", accessKey, "audio", "1", IntToDecimal(t)]
  {
    var fields := SigningFields(accessKey, t);
    DecimalHasNoNewline(t);
    assert forall i :: 0 <= i < |fields| ==> '\n' !in fields[i] by {
      forall i | 0 <= i < |fields| ensures '\n' !in fields[i] {
        if i == 5 { assert fields[i] == IntToDecimal(t); }
      }
    }
    SplitJoin(fields, '\n');
  }

  /** The string to sign spelled out: it ends in the signature version and the decimal timestamp. */
  lemma StringToSignSpelled(accessKey: string, t: int)
    ensures StringToSign(accessKey, t)
            == "POST\n/v1/identify\n" + accessKey + "\naudio\n1\n" + IntToDecimal(t)
  {
    var f := SigningFields(accessKey, t);
    var nl, d := ['\n'], IntToDecimal(t);
    var j4 := Join(f[4..], '\n');
    var j3 := Join(f[3..], '\n');
    var j2 := Join(f[2..], '\n');
    var j1 := Join(f[1..], '\n');
    assert j4 == "1" + nl + d by { assert f[4..][1..] == f[5..] == [d]; }
    assert j3 == "audio" + nl + j4 by { assert f[3..][1..] == f[4..]; }
    assert j2 == accessKey + nl + j3 by { assert f[2..][1..] == f[3..]; }
    assert j1 == "/v1/identify" + nl + j2 by { assert f[1..][1..] == f[2..]; }
    var head, tail := "POST\n/v1/identify\n", "\naudio\n1\n";
    assert head == "POST" + nl + "/v1/identify" + nl;
    assert tail == nl + "audio" + nl + "1" + nl;
    calc {
      StringToSign(accessKey, t);
      "POST" + nl + j1;
      "POST" + nl + ("/v1/identify" + nl + (accessKey + nl + ("audio" + nl + ("1" + nl + d))));
      ("POST" + nl + "/v1/identify" + nl) + accessKey + (nl + "audio" + nl + "1" + nl) + d;
      head + accessKey + tail + d;
    }
  }

  /** The eight part names are pairwise different. */
  lemma FormFieldNamesDistinct()
    ensures forall j, k :: 0 <= j < k < |FormFieldNames| ==> FormFieldNames[j] != FormFieldNames[k]
  {
    forall j, k | 0 <= j < k < |FormFieldNames| ensures FormFieldNames[j] != FormFieldNames[k] {
      // the names differ in length or, for the three of length 9, in their first letter
      var a, b := FormFieldNames[j], FormFieldNames[k];
      assert |a| != |b| || a[0] != b[0];
    }
  }

  /** Every form carries the eight parts in the fixed order, each name once. */
  lemma FormFieldOrder(file: Upload, cfg: Config, t: int, recordType: string, sign: Signer)
    ensures var form := OutboundForm(file, cfg, t, recordType, sign);
      && Names(form) == FormFieldNames
      && forall j, k :: 0 <= j < k < |form| ==> form[j].name != form[k].name
  {
    var form := OutboundForm(file, cfg, t, recordType, sign);
    assert forall i :: 0 <= i < 8 ==> Names(form)[i] == FormFieldNames[i] == form[i].name;
    FormFieldNamesDistinct();
  }

  /** What a receiver reading the form by name finds in each part. */
  lemma FormLookups(file: Upload, cfg: Config, t: int, recordType: string, sign: Signer)
    ensures var form := OutboundForm(file, cfg, t, recordType, sign);
      && Lookup(form, "sample") == Some(File(file.buffer, file.originalName, file.mimeType))
      && Lookup(form, "access_key") == Some(Text(cfg.accessKey))
      && Lookup(form, "data_type") == Some(Text("audio"))
      && Lookup(form, "signature_version") == Some(Text("1"))
      && Lookup(form, "signature") == Some(Text(Signature(sign, cfg, t)))
      && Lookup(form, "timestamp") == Some(Text(IntToDecimal(t)))
      && Lookup(form, "sample_bytes") == Some(Text(IntToDecimal(file.size)))
      && Lookup(form, "record_type") == Some(Text(recordType))
  {
    var form := OutboundForm(file, cfg, t, recordType, sign);
    FormFieldOrder(file, cfg, t, recordType, sign);
    LookupAt(form, 0);
    LookupAt(form, 1);
    LookupAt(form, 2);
    LookupAt(form, 3);
    LookupAt(form, 4);
    LookupAt(form, 5);
    LookupAt(form, 6);
    LookupAt(form, 7);
  }

  /**
   * One timestamp for both: the last signed field and the `timestamp` part
   * carry the same text, which reads back as the whole seconds of the clock.
   */
  lemma TimestampShared(file: Upload, cfg: Config, nowMs: int, recordType: string, sign: Signer)
    requires '\n' !in cfg.accessKey
    ensures var t := Timestamp(nowMs);
      var signed := Split(StringToSign(cfg.accessKey, t), '\n');
      && |signed| == 6
      && Lookup(OutboundForm(file, cfg, t, recordType, sign), "timestamp") == Some(Text(signed[5]))
      && ParseDecimal(signed[5]) == Some(t)
      && t * 1000 <= nowMs < t * 1000 + 1000
  {
    var t := Timestamp(nowMs);
    StringToSignFields(cfg.accessKey, t);
    FormLookups(file, cfg, t, recordType, sign);
    DecimalRoundTrip(t);
  }

  /** `sample_bytes` reads back as the upload's size, which is its byte length. */
  lemma SampleBytesIsSize(file: Upload, cfg: Config, t: int, recordType: string, sign: Signer)
    requires SizeMatches(file)
    ensures Lookup(OutboundForm(file, cfg, t, recordType, sign), "sample_bytes") == Some(Text(IntToDecimal(|file.buffer|)))
    ensures ParseDecimal(IntToDecimal(file.size)) == Some(|file.buffer|)
  {
    FormLookups(file, cfg, t, recordType, sign);
    DecimalRoundTrip(file.size);
  }

  /**
   * The signed record type is always `audio`, while the `record_type` part
   * carries the caller's defaulted value; the two differ whenever the caller
   * sends a non-empty value other than `audio`.
   */
  lemma RecordTypeAsymmetry(file: Upload, cfg: Config, t: int, given: Option<string>, sign: Signer)
    requires '\n' !in cfg.accessKey
    ensures var signed := Split(StringToSign(cfg.accessKey, t), '\n');
      var form := OutboundForm(file, cfg, t, DefaultRecordType(given), sign);
      && |signed| == 6 && signed[3] == "audio"
      && Lookup(form, "record_type") == Some(Text(DefaultRecordType(given)))
      && (given.Some? && given.value != "" && given.value != "audio" ==>
            Lookup(form, "record_type") != Some(Text(signed[3])))
  {
    StringToSignFields(cfg.accessKey, t);
    var form := OutboundForm(file, cfg, t, DefaultRecordType(given), sign);
    FormFieldOrder(file, cfg, t, DefaultRecordType(given), sign);
    LookupAt(form, 7);
  }

  /**
   * The signature does not depend on the record type: forms built for two
   * record types agree on every part but the last, `record_type`.
   */
  lemma SignatureIgnoresRecordType(file: Upload, cfg: Config, t: int, recordType1: string, recordType2: string, sign: Signer)
    ensures var form1 := OutboundForm(file, cfg, t, recordType1, sign);
      var form2 := OutboundForm(file, cfg, t, recordType2, sign);
      && |form1| == |form2| == 8
      && form1[..7] == form2[..7]
      && Lookup(form1, "signature") == Lookup(form2, "signature")
      && (form1[7].value != form2[7].value <==> recordType1 != recordType2)
  {
    var form1 := OutboundForm(file, cfg, t, recordType1, sign);
    var form2 := OutboundForm(file, cfg, t, recordType2, sign);
    assert form1[..7] == form2[..7];
    assert Lookup(form1, "signature") == Lookup(form2, "signature") by {
      FormFieldOrder(file, cfg, t, recordType1, sign);
      FormFieldOrder(file, cfg, t, recordType2, sign);
      LookupAt(form1, 4);
      LookupAt(form2, 4);
    }
  }

  /** The signed bytes determine the timestamp: different seconds give different HMAC inputs. */
  lemma SignedInputDeterminesTimestamp(accessKey: string, t1: int, t2: int)
    requires Utf8.Encode(StringToSign(accessKey, t1)) == Utf8.Encode(StringToSign(accessKey, t2))
    ensures t1 == t2
  {
    Utf8.EncodeInjective(StringToSign(accessKey, t1), StringToSign(accessKey, t2));
    StringToSignSpelled(accessKey, t1);
    StringToSignSpelled(accessKey, t2);
    // both strings share everything before the timestamp
    var prefix := "POST\n/v1/identify\n" + accessKey + "\naudio\n1\n";
    var d1, d2 := IntToDecimal(t1), IntToDecimal(t2);
    assert (prefix + d1)[|prefix|..] == d1;
    assert (prefix + d2)[|prefix|..] == d2;
    DecimalInjective(t1, t2);
  }

  /** A provider error body with a truthy `status.msg` wins over the transport message. */
  lemma ProviderMessageWins(status: map<string, Json>, rest: map<string, Json>, message: string)
    requires "msg" in status && Truthy(status["msg"])
    ensures RelayResult(Failed(Some(JObject(rest["status" := JObject(status)])), message))
            == Response(500, ErrorBody(status["msg"]))
  {
  }

  /**
   * Without a truthy `status.msg` in the reply body (no reply, a body that is
   * not an object, no `status` object, no `msg`, or a falsy one) the
   * transport's message is reported.
   */
  lemma TransportMessageOtherwise(data: Option<Json>, message: string)
    requires || data.None?
             || !data.value.JObject?
             || "status" !in data.value.members
             || !data.value.members["status"].JObject?
             || "msg" !in data.value.members["status"].members
             || !Truthy(data.value.members["status"].members["msg"])
    ensures RelayResult(Failed(data, message)) == Response(500, ErrorBody(JString(message)))
  {
  }

  /**
   * A 10-byte `clip.wav` of type `audio/wav` with no `recordType` is sent with
   * `record_type=audio`, `sample_bytes=10` and the file's own name and type,
   * signed over a string ending in the version and the timestamp.
   */
  lemma ClipScenario(buffer: seq<byte>, cfg: Config, nowMs: int, sign: Signer)
    requires |buffer| == 10
    ensures var file := Upload(buffer, "clip.wav", "audio/wav", 10);
      var form := OutboundForm(file, cfg, Timestamp(nowMs), DefaultRecordType(None), sign);
      && Lookup(form, "record_type") == Some(Text("audio"))
      && Lookup(form, "sample_bytes") == Some(Text("10"))
      && Lookup(form, "sample") == Some(File(buffer, "clip.wav", "audio/wav"))
      && Lookup(form, "signature") == Some(Text(sign(Utf8.Encode(cfg.secretKey),
           Utf8.Encode("POST\n/v1/identify\n" + cfg.accessKey + "\naudio\n1\n" + IntToDecimal(Timestamp(nowMs))))))
  {
    var file := Upload(buffer, "clip.wav", "audio/wav", 10);
    var t := Timestamp(nowMs);
    var form := OutboundForm(file, cfg, t, "audio", sign);
    assert Lookup(form, "sample_bytes") == Some(Text("10")) by {
      LookupFirst(form, 6, "sample_bytes");
      assert NatToDecimal(1) == "1";
      assert NatToDecimal(10) == NatToDecimal(1) + [DigitChar(0)];
      assert IntToDecimal(10) == "10";
    }
    LookupFirst(form, 0, "sample");
    LookupFirst(form, 7, "record_type");
    LookupFirst(form, 4, "signature");
    StringToSignSpelled(cfg.accessKey, t);
  }

  /** A 503 reply `{status: {msg: "Limit exceeded"}}` reaches the caller as 500 `{error: "Limit exceeded"}`. */
  lemma LimitExceededScenario(message: string)
    ensures RelayResult(Failed(Some(JObject(map["status" := JObject(map["msg" := JString("Limit exceeded")])])), message))
            == Response(500, ErrorBody(JString("Limit exceeded")))
  {
  }
}
