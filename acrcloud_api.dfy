/**
 * The recognition client (`AcrCloudClient`): signs and assembles an identify
 * request, hands it to the HTTP transport, and drives the base64 facade
 * decode -> identify -> normalise.
 */
module AcrCloudApi {
  import opened Wrappers
  import opened Text
  import opened Utf8
  import opened Collaborators
  import opened AcrCloudTypes
  import opened Models
  import opened Signing
  import opened IdentifyForm
  import opened Normalise
  import opened RecognitionResponse

  const DataType := "audio"
  const SignatureVersion := "1"
  /** The file name the facade gives the decoded audio. */
  const RecordedFileName := "recorded_audio.wav"
  const DecodeErrorPrefix := "Failed to decode base64 audio data: "

  /**
   * The HTTP client as the model sees it: POST a multipart form to a URL and
   * obtain the deserialised response, or the message of a transport, status
   * or parse failure.
   */
  type Transport = (string, Form) -> Result<AcrCloudResponse, string>

  /** One request handed to the transport. */
  datatype Request = Request(url: string, form: Form)

  /** `format!("https://{}/v1/identify", host)` */
  function IdentifyUrl(host: string): (url: string)
    ensures StartsWith(url, "https://")
    ensures |url| == 8 + |host| + |HttpUri|
    ensures url[8..8 + |host|] == host
    ensures url[8 + |host|..] == HttpUri
  {
    "https://" + host + HttpUri
  }

  /** Different hosts give different endpoints, so the host is recoverable from the URL. */
  lemma IdentifyUrlInjective(h1: string, h2: string)
    requires IdentifyUrl(h1) == IdentifyUrl(h2)
    ensures h1 == h2
  {
    var u := IdentifyUrl(h1);
    assert |h1| == |h2|;
    assert h1 == u[8..8 + |h1|] == h2;
  }

  class AcrCloudClient {
    const host: string
    const accessKey: string
    const accessSecret: string
    const crypto: Crypto
    const client: Transport
    /** Every request `identify_audio` has sent, oldest first; its length counts the calls. */
    ghost var sent: seq<Request>

    /** `AcrCloudClient::new` */
    constructor (host: string, accessKey: string, accessSecret: string, crypto: Crypto, client: Transport)
      ensures this.host == host && this.accessKey == accessKey && this.accessSecret == accessSecret
      ensures this.crypto == crypto && this.client == client
      ensures sent == []
    {
      this.host := host;
      this.accessKey := accessKey;
      this.accessSecret := accessSecret;
      this.crypto := crypto;
      this.client := client;
      sent := [];
    }

    /** `create_signature`: builds the string-to-sign, feeds it to a fresh HMAC state, encodes the tag. */
    method CreateSignature(timestamp: string, dataType: string, signatureVersion: string) returns (signature: string)
      ensures signature == Signature(crypto, accessKey, accessSecret, timestamp, dataType, signatureVersion)
    {
      var stringToSign := StringToSign(accessKey, dataType, signatureVersion, timestamp);
      var mac := new HmacSha1.NewFromSlice(crypto.hmacSha1, Encode(accessSecret));
      mac.Update(Encode(stringToSign));
      assert mac.message == Encode(stringToSign);
      var tag := mac.Finalize();
      assert tag == crypto.hmacSha1(Encode(accessSecret), Encode(stringToSign));
      signature := crypto.base64Encode(tag);
    }

    /** `create_identify_form`: the seven parts, signed for the same timestamp, data type and version. */
    method CreateIdentifyForm(audio: seq<byte>, filename: string, timestamp: string,
                              dataType: string, signatureVersion: string) returns (form: Form)
      ensures form == BuildForm(accessKey, audio, filename, timestamp, dataType, signatureVersion,
                                Signature(crypto, accessKey, accessSecret, timestamp, dataType, signatureVersion))
    {
      var signature := CreateSignature(timestamp, dataType, signatureVersion);
      form := BuildForm(accessKey, audio, filename, timestamp, dataType, signatureVersion, signature);
    }

    /**
     * The request `identify_audio` sends for this audio, file name and
     * timestamp: to the identify endpoint of the client's host, the seven
     * fields, signed for that same timestamp with data type "audio" and
     * version "1".
     */
    function IdentifyRequest(audio: seq<byte>, filename: string, timestamp: string): (req: Request)
      ensures req.url == IdentifyUrl(host)
      ensures Names(req.form) == FieldOrder
      ensures Lookup(req.form, "sample") == Some(File(audio, filename, Some(AudioMime)))
      ensures Lookup(req.form, "access_key") == Some(PartBody.Text(accessKey))
      ensures Lookup(req.form, "sample_bytes") == Some(PartBody.Text(NatToString(|audio|)))
      ensures Lookup(req.form, "timestamp") == Some(PartBody.Text(timestamp))
      ensures Lookup(req.form, "signature")
           == Some(PartBody.Text(Signature(crypto, accessKey, accessSecret, timestamp, DataType, SignatureVersion)))
      ensures Lookup(req.form, "data_type") == Some(PartBody.Text(DataType))
      ensures Lookup(req.form, "signature_version") == Some(PartBody.Text(SignatureVersion))
    {
      var sig := Signature(crypto, accessKey, accessSecret, timestamp, DataType, SignatureVersion);
      FormShape(accessKey, audio, filename, timestamp, DataType, SignatureVersion, sig);
      FormFields(accessKey, audio, filename, timestamp, DataType, SignatureVersion, sig);
      Request(IdentifyUrl(host), BuildForm(accessKey, audio, filename, timestamp, DataType, SignatureVersion, sig))
    }

    /**
     * `identify_audio`, with the clock reading `now` (seconds since the Unix
     * epoch) passed in. The request is recorded, then its outcome is the
     * transport's.
     */
    method IdentifyAudio(audio: seq<byte>, filename: string, now: nat) returns (r: Result<AcrCloudResponse, string>)
      modifies this
      ensures sent == old(sent) + [IdentifyRequest(audio, filename, NatToString(now))]
      ensures r == client(IdentifyUrl(host), IdentifyRequest(audio, filename, NatToString(now)).form)
    {
      var timestamp := NatToString(now);
      var form := CreateIdentifyForm(audio, filename, timestamp, DataType, SignatureVersion);
      var url := IdentifyUrl(host);
      sent := sent + [Request(url, form)];
      r := client(url, form);
    }

    /** `decode_base64`: the decoded bytes, or the decoder's message behind a fixed prefix. */
    function DecodeBase64(data: string): (r: Result<seq<byte>, string>)
      ensures crypto.base64Decode(data).Ok? ==> r == Ok(crypto.base64Decode(data).value)
      ensures crypto.base64Decode(data).Err? ==> r.Err? && StartsWith(r.error, DecodeErrorPrefix)
      ensures crypto.base64Decode(data).Err? ==> r.error[|DecodeErrorPrefix|..] == crypto.base64Decode(data).error
    {
      match crypto.base64Decode(data)
      case Ok(bytes) => Ok(bytes)
      case Err(e) => Err(DecodeErrorPrefix + e)
    }

    /** What `recognize_base64_audio` returns: decode, then identify, then normalise, stopping at the first error. */
    function Recognition(data: string, now: nat): (r: Result<MusicRecognitionResult, string>)
      ensures crypto.base64Decode(data).Err? ==> r == Err(DecodeErrorPrefix + crypto.base64Decode(data).error)
      ensures r.Ok? ==> crypto.base64Decode(data).Ok?
      ensures r.Ok? ==> var out := client(IdentifyUrl(host),
                                          IdentifyRequest(crypto.base64Decode(data).value, RecordedFileName,
                                                          NatToString(now)).form);
                        out.Ok? && r == ProcessResponse(out.value)
      ensures crypto.base64Decode(data).Ok? ==>
                var out := client(IdentifyUrl(host),
                                  IdentifyRequest(crypto.base64Decode(data).value, RecordedFileName,
                                                  NatToString(now)).form);
                r == if out.Ok? then ProcessResponse(out.value) else Err(out.error)
    {
      match DecodeBase64(data)
      case Err(e) => Err(e)
      case Ok(audio) =>
        match client(IdentifyUrl(host), IdentifyRequest(audio, RecordedFileName, NatToString(now)).form)
        case Err(e) => Err(e)
        case Ok(response) => ProcessResponse(response)
    }

    /**
     * `recognize_base64_audio`. A decode failure returns at once and sends
     * nothing; otherwise exactly one request, for the decoded audio under the
     * fixed file name, is sent, and its outcome is normalised.
     */
    method RecognizeBase64Audio(data: string, now: nat) returns (r: Result<MusicRecognitionResult, string>)
      modifies this
      ensures r == Recognition(data, now)
      ensures DecodeBase64(data).Err? ==> sent == old(sent)
      ensures DecodeBase64(data).Ok? ==>
                sent == old(sent) + [IdentifyRequest(DecodeBase64(data).value, RecordedFileName, NatToString(now))]
    {
      var decoded := DecodeBase64(data);
      if decoded.Err? {
        return Err(decoded.error);
      }
      var response := IdentifyAudio(decoded.value, RecordedFileName, now);
      if response.Err? {
        return Err(response.error);
      }
      r := ProcessResponse(response.value);
    }
  }

  /** A decode failure yields an error starting with the decode prefix, before any request. */
  lemma DecodeFailureShortCircuits(c: AcrCloudClient, data: string, now: nat)
    requires c.crypto.base64Decode(data).Err?
    ensures c.Recognition(data, now) == Err(DecodeErrorPrefix + c.crypto.base64Decode(data).error)
    ensures StartsWith(c.Recognition(data, now).error, DecodeErrorPrefix)
  {
  }

  /**
   * The one request the facade sends carries the decoded audio as `sample`
   * under the name "recorded_audio.wav", data type "audio", version "1", the
   * rendered clock reading as `timestamp`, and as `signature` the signature of
   * that same timestamp, data type and version.
   */
  lemma FacadeRequestContents(c: AcrCloudClient, data: string, now: nat)
    requires c.crypto.base64Decode(data).Ok?
    ensures var audio := c.crypto.base64Decode(data).value;
            var ts := NatToString(now);
            var req := c.IdentifyRequest(c.DecodeBase64(data).value, RecordedFileName, ts);
            && req.url == IdentifyUrl(c.host)
            && Names(req.form) == FieldOrder
            && Lookup(req.form, "sample") == Some(File(audio, RecordedFileName, Some(AudioMime)))
            && Lookup(req.form, "access_key") == Some(PartBody.Text(c.accessKey))
            && Lookup(req.form, "sample_bytes") == Some(PartBody.Text(NatToString(|audio|)))
            && Lookup(req.form, "timestamp") == Some(PartBody.Text(ts))
            && Lookup(req.form, "data_type") == Some(PartBody.Text("audio"))
            && Lookup(req.form, "signature_version") == Some(PartBody.Text("1"))
            && Lookup(req.form, "signature")
               == Some(PartBody.Text(Signature(c.crypto, c.accessKey, c.accessSecret, ts, "audio", "1")))
  {
    var audio := c.crypto.base64Decode(data).value;
    var ts := NatToString(now);
    var sig := Signature(c.crypto, c.accessKey, c.accessSecret, ts, DataType, SignatureVersion);
    FormShape(c.accessKey, audio, RecordedFileName, ts, DataType, SignatureVersion, sig);
    FormFields(c.accessKey, audio, RecordedFileName, ts, DataType, SignatureVersion, sig);
  }

  /**
   * A decode failure is answered 400 with the error text as body, unless the
   * decoder's own message happens to mention "No music matches found", which
   * makes it 404.
   */
  lemma DecodeFailureStatus(c: AcrCloudClient, data: string, now: nat)
    requires c.crypto.base64Decode(data).Err?
    ensures var e := c.crypto.base64Decode(data).error;
            CreateRecognitionResponse(c.Recognition(data, now))
            == HttpResponse(if Contains(e, NoMatchPhrase) then StatusNotFound else StatusBadRequest,
                            PlainText(DecodeErrorPrefix + e))
  {
    var e := c.crypto.base64Decode(data).error;
    DecodePrefixShape();
    ContainsAfterPrefix(DecodeErrorPrefix, e, NoMatchPhrase);
    assert StartsWith(DecodeErrorPrefix + e, DecodePhrase) by {
      assert (DecodeErrorPrefix + e)[..|DecodePhrase|] == DecodeErrorPrefix[..|DecodePhrase|];
    }
    StartsWithContains(DecodeErrorPrefix + e, DecodePhrase);
  }

  lemma DecodePrefixShape()
    ensures NoChar(DecodeErrorPrefix, 'N') && NoMatchPhrase[0] == 'N' && |NoMatchPhrase| > 0
    ensures DecodeErrorPrefix[..|DecodePhrase|] == DecodePhrase
  {
  }

  /** A transport failure's message reaches the caller unchanged. */
  lemma TransportErrorPropagates(c: AcrCloudClient, data: string, now: nat)
    requires c.crypto.base64Decode(data).Ok?
    requires c.client(IdentifyUrl(c.host),
                      c.IdentifyRequest(c.crypto.base64Decode(data).value, RecordedFileName, NatToString(now)).form).Err?
    ensures c.Recognition(data, now)
         == Err(c.client(IdentifyUrl(c.host),
                         c.IdentifyRequest(c.crypto.base64Decode(data).value, RecordedFileName, NatToString(now)).form).error)
  {
  }

  /** A successful recognition is the normalisation of the provider's response to the one request sent. */
  lemma SuccessIsNormalisedResponse(c: AcrCloudClient, data: string, now: nat)
    requires c.Recognition(data, now).Ok?
    ensures c.crypto.base64Decode(data).Ok?
    ensures var out := c.client(IdentifyUrl(c.host),
                                c.IdentifyRequest(c.crypto.base64Decode(data).value, RecordedFileName, NatToString(now)).form);
            && out.Ok? && out.value.status.code == 0 && |out.value.metadata.music| > 0
            && c.Recognition(data, now).value == ResultOf(out.value.metadata.music[0])
            && CreateRecognitionResponse(c.Recognition(data, now)).status == StatusOk
  {
  }
}
