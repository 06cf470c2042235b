/**
 * Request signing: the canonical string-to-sign of the identify endpoint, the
 * signature derived from it, and the incremental HMAC state that computes it.
 */
module Signing {
  import opened Text
  import opened Utf8
  import opened Collaborators

  const HttpMethod := "POST"
  const HttpUri := "/v1/identify"

  /** The six lines of the string-to-sign, in the order the provider recomputes them. */
  function SignedFields(accessKey: string, dataType: string, signatureVersion: string, timestamp: string): (fields: seq<string>)
  {
    [HttpMethod, HttpUri, accessKey, dataType, signatureVersion, timestamp]
  }

  /** `"POST\n/v1/identify\n{access_key}\n{data_type}\n{signature_version}\n{timestamp}"` */
  function StringToSign(accessKey: string, dataType: string, signatureVersion: string, timestamp: string): (s: string)
    ensures StartsWith(s, "POST\n/v1/identify\n")
    ensures |s| == 18 + |accessKey| + 1 + |dataType| + 1 + |signatureVersion| + 1 + |timestamp|
  {
    "POST\n/v1/identify\n" + accessKey + "\n" + dataType + "\n" + signatureVersion + "\n" + timestamp
  }

  /** The string-to-sign is the six fields joined by newlines. */
  lemma StringToSignIsJoin(accessKey: string, dataType: string, signatureVersion: string, timestamp: string)
    ensures StringToSign(accessKey, dataType, signatureVersion, timestamp)
         == Join(SignedFields(accessKey, dataType, signatureVersion, timestamp), '\n')
  {
    var f := SignedFields(accessKey, dataType, signatureVersion, timestamp);
    assert f[1..][1..][1..][1..][1..] == [timestamp];
    assert Join(f[1..][1..][1..][1..], '\n') == signatureVersion + "\n" + timestamp;
    assert Join(f[1..][1..][1..], '\n') == dataType + "\n" + signatureVersion + "\n" + timestamp;
    assert Join(f[1..][1..], '\n') == accessKey + "\n" + dataType + "\n" + signatureVersion + "\n" + timestamp;
  }

  /**
   * When no field contains a newline, splitting the string-to-sign at its
   * newlines gives back exactly the method, the URI and the four fields.
   */
  lemma {:induction false} StringToSignLines(accessKey: string, dataType: string, signatureVersion: string, timestamp: string)
    requires NoChar(accessKey, '\n') && NoChar(dataType, '\n')
    requires NoChar(signatureVersion, '\n') && NoChar(timestamp, '\n')
    ensures Split(StringToSign(accessKey, dataType, signatureVersion, timestamp), '\n')
         == [HttpMethod, HttpUri, accessKey, dataType, signatureVersion, timestamp]
  {
    var f := SignedFields(accessKey, dataType, signatureVersion, timestamp);
    StringToSignIsJoin(accessKey, dataType, signatureVersion, timestamp);
    SplitJoin(f, '\n');
  }

  /** Newline-free fields are determined by the string-to-sign. */
  lemma StringToSignInjective(k1: string, d1: string, v1: string, t1: string,
                              k2: string, d2: string, v2: string, t2: string)
    requires NoChar(k1, '\n') && NoChar(d1, '\n') && NoChar(v1, '\n') && NoChar(t1, '\n')
    requires NoChar(k2, '\n') && NoChar(d2, '\n') && NoChar(v2, '\n') && NoChar(t2, '\n')
    requires StringToSign(k1, d1, v1, t1) == StringToSign(k2, d2, v2, t2)
    ensures k1 == k2 && d1 == d2 && v1 == v2 && t1 == t2
  {
    StringToSignLines(k1, d1, v1, t1);
    StringToSignLines(k2, d2, v2, t2);
  }

  /**
   * The signature: base64 of HMAC-SHA1, keyed by the UTF-8 bytes of the access
   * secret, over the UTF-8 bytes of the string-to-sign, that is over the bytes
   * of the fixed prefix and of each field and separator in turn.
   */
  function Signature(crypto: Crypto, accessKey: string, accessSecret: string,
                     timestamp: string, dataType: string, signatureVersion: string): (signature: string)
    ensures signature
         == crypto.base64Encode(crypto.hmacSha1(Encode(accessSecret),
              Encode("POST\n/v1/identify\n") + Encode(accessKey) + Encode("\n") + Encode(dataType)
              + Encode("\n") + Encode(signatureVersion) + Encode("\n") + Encode(timestamp)))
  {
    SignedBytes(accessKey, dataType, signatureVersion, timestamp);
    crypto.base64Encode(crypto.hmacSha1(Encode(accessSecret), Encode(StringToSign(accessKey, dataType, signatureVersion, timestamp))))
  }

  /** The bytes fed to the MAC are those of the fixed prefix followed by those of each field. */
  lemma {:induction false} SignedBytes(accessKey: string, dataType: string, signatureVersion: string, timestamp: string)
    ensures Encode(StringToSign(accessKey, dataType, signatureVersion, timestamp))
         == Encode("POST\n/v1/identify\n") + Encode(accessKey) + Encode("\n") + Encode(dataType)
            + Encode("\n") + Encode(signatureVersion) + Encode("\n") + Encode(timestamp)
  {
    var p, nl := "POST\n/v1/identify\n", "\n";
    EncodeAppend(p, accessKey);
    EncodeAppend(p + accessKey, nl);
    EncodeAppend(p + accessKey + nl, dataType);
    EncodeAppend(p + accessKey + nl + dataType, nl);
    EncodeAppend(p + accessKey + nl + dataType + nl, signatureVersion);
    EncodeAppend(p + accessKey + nl + dataType + nl + signatureVersion, nl);
    EncodeAppend(p + accessKey + nl + dataType + nl + signatureVersion + nl, timestamp);
  }

  /**
   * The `Hmac<Sha1>` state: a key and the message bytes fed so far. Finalising
   * gives the MAC of everything fed, in order.
   */
  class HmacSha1 {
    const mac: MacFunction
    const key: seq<byte>
    var message: seq<byte>

    /** `Hmac::<Sha1>::new_from_slice`: any key length is accepted. */
    constructor NewFromSlice(mac: MacFunction, key: seq<byte>)
      ensures this.mac == mac && this.key == key && message == []
    {
      this.mac := mac;
      this.key := key;
      message := [];
    }

    /** `mac.update(data)` */
    method Update(data: seq<byte>)
      modifies this
      ensures message == old(message) + data
    {
      message := message + data;
    }

    /** `mac.finalize().into_bytes()` */
    method Finalize() returns (tag: Digest)
      ensures tag == mac(key, message)
    {
      tag := mac(key, message);
    }
  }
}
