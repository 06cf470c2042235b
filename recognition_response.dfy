/**
 * Outcome classification (`create_recognition_response`): a recognition
 * outcome becomes an HTTP status and body. Errors are told apart only by
 * substring tests on their message, the first matching test winning.
 */
module RecognitionResponse {
  import opened Wrappers
  import opened Text
  import opened AcrCloudTypes
  import opened Models
  import opened Normalise

  /** The phrase that marks a message as "no match". */
  const NoMatchPhrase := "No music matches found"
  /** The phrase that marks a message as invalid input. */
  const DecodePhrase := "Failed to decode base64"

  const StatusOk := 200
  const StatusBadRequest := 400
  const StatusNotFound := 404
  const StatusInternalServerError := 500

  /** `HttpResponse::Ok().json(..)` or `.body(message)` */
  datatype Body = Json(result: MusicRecognitionResult) | PlainText(text: string)

  datatype HttpResponse = HttpResponse(status: nat, body: Body)

  function CreateRecognitionResponse(result: Result<MusicRecognitionResult, string>): (resp: HttpResponse)
    ensures result.Ok? ==> resp == HttpResponse(StatusOk, Json(result.value))
    ensures result.Err? ==> resp.body == PlainText(result.error)
    ensures result.Err? ==> resp.status in {StatusNotFound, StatusBadRequest, StatusInternalServerError}
    ensures result.Err? ==> (resp.status == StatusNotFound <==> Contains(result.error, NoMatchPhrase))
    ensures result.Err? ==> (resp.status == StatusBadRequest
                             <==> !Contains(result.error, NoMatchPhrase) && Contains(result.error, DecodePhrase))
  {
    match result
    case Ok(r) => HttpResponse(StatusOk, Json(r))
    case Err(message) =>
      if Contains(message, NoMatchPhrase) then HttpResponse(StatusNotFound, PlainText(message))
      else if Contains(message, DecodePhrase) then HttpResponse(StatusBadRequest, PlainText(message))
      else HttpResponse(StatusInternalServerError, PlainText(message))
  }

  /** 200 exactly for a result; the body of an error is its message unchanged. */
  lemma OkIffSuccess(result: Result<MusicRecognitionResult, string>)
    ensures CreateRecognitionResponse(result).status == StatusOk <==> result.Ok?
  {
  }

  /** "No matches" from the normaliser is answered 404. */
  lemma NoMatchesIsNotFound(status: Status)
    requires status.code == 0
    ensures CreateRecognitionResponse(ProcessResponse(AcrCloudResponse(status, Metadata([]))))
         == HttpResponse(StatusNotFound, PlainText(NoMatchesMessage))
  {
    StartsWithContains(NoMatchesMessage, NoMatchPhrase);
  }

  /** The phrases start with a letter absent from the frame around a provider message. */
  lemma PhraseShapes()
    ensures |NoMatchPhrase| > 0 && NoMatchPhrase[0] == 'N' && NoSpaceParen(NoMatchPhrase)
    ensures |DecodePhrase| > 0 && DecodePhrase[0] == 'F' && NoSpaceParen(DecodePhrase)
  {
  }

  lemma ProviderFrameShape(code: int)
    ensures var a := "ACRCloud error: ";
            var b := " (code: " + IntToString(code) + ")";
            && NoChar(a, 'N') && NoChar(a, 'F') && NoChar(b, 'N') && NoChar(b, 'F')
            && |b| >= 2 && b[0] == ' ' && b[1] == '('
  {
    var b := " (code: " + IntToString(code) + ")";
    forall k | 0 <= k < |b| ensures b[k] != 'N' && b[k] != 'F' {
      if 8 <= k < |b| - 1 {
        assert b[k] == IntToString(code)[k - 8];
      }
    }
  }

  /** A provider error message contains a phrase exactly when the provider's own text does. */
  lemma ProviderMessageContains(status: Status, p: string)
    requires p == NoMatchPhrase || p == DecodePhrase
    ensures Contains(ProviderErrorMessage(status), p) <==> Contains(status.msg, p)
  {
    PhraseShapes();
    ProviderFrameShape(status.code);
    var a, b := "ACRCloud error: ", " (code: " + IntToString(status.code) + ")";
    assert ProviderErrorMessage(status) == a + status.msg + b;
    ContainsInFramed(a, status.msg, b, p);
  }

  /**
   * A provider error is answered by what the provider's message says: 404 if it
   * mentions "No music matches found", else 400 if it mentions "Failed to
   * decode base64", else 500. The code and the frame of the message play no part.
   */
  lemma ProviderErrorStatus(status: Status, metadata: Metadata)
    requires status.code != 0
    ensures CreateRecognitionResponse(ProcessResponse(AcrCloudResponse(status, metadata))).status
         == if Contains(status.msg, NoMatchPhrase) then StatusNotFound
            else if Contains(status.msg, DecodePhrase) then StatusBadRequest
            else StatusInternalServerError
  {
    ProviderMessageContains(status, NoMatchPhrase);
    ProviderMessageContains(status, DecodePhrase);
  }

  /** A provider message that mentions "no matches" is answered 404, even with a non-zero code. */
  lemma ProviderNoMatchTextIsNotFound(code: i32, metadata: Metadata)
    requires code != 0
    ensures CreateRecognitionResponse(ProcessResponse(AcrCloudResponse(Status(code, NoMatchesMessage), metadata))).status
         == StatusNotFound
  {
    StartsWithContains(NoMatchesMessage, NoMatchPhrase);
    ProviderErrorStatus(Status(code, NoMatchesMessage), metadata);
  }
}
