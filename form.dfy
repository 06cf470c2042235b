/** The multipart form of an identify request. */
module IdentifyForm {
  import opened Wrappers
  import opened Text
  import opened Utf8

  /** `Part::bytes(..).file_name(..)` with an optional MIME type, or a `text` part. */
  datatype PartBody =
    | File(data: seq<byte>, fileName: string, mime: Option<string>)
    | Text(value: string)

  datatype Part = Part(name: string, body: PartBody)

  type Form = seq<Part>

  /** The content type attached to the audio part. */
  const AudioMime := "audio/wav"

  /** The part names, in the order the form adds them. */
  const FieldOrder: seq<string> :=
    ["sample", "access_key", "sample_bytes", "timestamp", "signature", "data_type", "signature_version"]

  /** `create_identify_form`, given the signature computed for the same timestamp, data type and version. */
  function BuildForm(accessKey: string, audio: seq<byte>, filename: string, timestamp: string,
                     dataType: string, signatureVersion: string, signature: string): (form: Form)
    ensures |form| == |FieldOrder|
  {
    [ Part("sample", File(audio, filename, Some(AudioMime))),
      Part("access_key", Text(accessKey)),
      Part("sample_bytes", Text(NatToString(|audio|))),
      Part("timestamp", Text(timestamp)),
      Part("signature", Text(signature)),
      Part("data_type", Text(dataType)),
      Part("signature_version", Text(signatureVersion)) ]
  }

  /** The names of a form's parts, in order. */
  function Names(form: Form): (names: seq<string>)
    ensures |names| == |form|
    ensures forall i :: 0 <= i < |form| ==> names[i] == form[i].name
  {
    if form == [] then [] else [form[0].name] + Names(form[1..])
  }

  /** What a receiver reads for a field name: the body of the first part with that name. */
  function Lookup(form: Form, name: string): (r: Option<PartBody>)
    ensures r.Some? <==> exists i :: 0 <= i < |form| && form[i].name == name
    ensures r.Some? ==> exists i :: 0 <= i < |form| && form[i] == Part(name, r.value)
  {
    if form == [] then None
    else if form[0].name == name then Some(form[0].body)
    else Lookup(form[1..], name)
  }

  /** No name is used twice. */
  ghost predicate DistinctNames(form: Form) {
    forall i, j :: 0 <= i < j < |form| ==> form[i].name != form[j].name
  }

  /** The form has exactly the seven parts, named in this order, each name once. */
  lemma FormShape(accessKey: string, audio: seq<byte>, filename: string, timestamp: string,
                  dataType: string, signatureVersion: string, signature: string)
    ensures var form := BuildForm(accessKey, audio, filename, timestamp, dataType, signatureVersion, signature);
            Names(form) == FieldOrder && DistinctNames(form)
  {
  }

  /**
   * Reading the form by name gives the audio with its file name and type, the
   * access key, the decimal audio length, the timestamp, the signature, the
   * data type and the signature version; the length reads back as `|audio|`.
   */
  lemma FormFields(accessKey: string, audio: seq<byte>, filename: string, timestamp: string,
                   dataType: string, signatureVersion: string, signature: string)
    ensures var form := BuildForm(accessKey, audio, filename, timestamp, dataType, signatureVersion, signature);
            && Lookup(form, "sample") == Some(File(audio, filename, Some(AudioMime)))
            && Lookup(form, "access_key") == Some(Text(accessKey))
            && Lookup(form, "sample_bytes") == Some(Text(NatToString(|audio|)))
            && Lookup(form, "timestamp") == Some(Text(timestamp))
            && Lookup(form, "signature") == Some(Text(signature))
            && Lookup(form, "data_type") == Some(Text(dataType))
            && Lookup(form, "signature_version") == Some(Text(signatureVersion))
    ensures ParseDecimal(NatToString(|audio|)) == |audio|
  {
    var form := BuildForm(accessKey, audio, filename, timestamp, dataType, signatureVersion, signature);
    FormShape(accessKey, audio, filename, timestamp, dataType, signatureVersion, signature);
    LookupDistinct(form, 0);
    LookupDistinct(form, 1);
    LookupDistinct(form, 2);
    LookupDistinct(form, 3);
    LookupDistinct(form, 4);
    LookupDistinct(form, 5);
    LookupDistinct(form, 6);
    ParseDecimalOfNatToString(|audio|);
  }

  /** In a form with distinct names, looking up a part's name finds that part. */
  lemma {:induction false} LookupDistinct(form: Form, i: int)
    requires DistinctNames(form) && 0 <= i < |form|
    ensures Lookup(form, form[i].name) == Some(form[i].body)
    decreases i
  {
    if i > 0 {
      assert form[0].name != form[i].name;
      assert form[1..][i - 1] == form[i];
      LookupDistinct(form[1..], i - 1);
    }
  }
}
