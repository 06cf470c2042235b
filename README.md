# KeyDance recognition client, modelled in Dafny

KeyDance is a small web service. It takes a base64-encoded audio sample,
sends it to the ACRCloud fingerprinting service in a signed multipart request,
and turns the provider's answer into a song result or an HTTP error. The logic
sits in the recognition client `AcrCloudClient` (`src/acrcloud_api.rs`). This
project models that client and proves properties of the model:

- **Request signing** (`Signing`, `AcrCloudClient.CreateSignature`). The
  canonical string-to-sign is
  `"POST\n/v1/identify\n" + access_key + "\n" + data_type + "\n" + signature_version + "\n" + timestamp`.
  Its UTF-8 bytes go through an incremental HMAC-SHA1 state (`HmacSha1`)
  keyed by the UTF-8 bytes of the access secret. The tag is then
  base64-encoded.
- **The multipart identify form** (`IdentifyForm`). It is an ordered
  sequence of seven named parts.
- **Response normalisation** (`Normalise.ProcessResponse`). The checks run
  in a fixed order: a non-zero status code, then an empty match list, then the
  first match. The artist falls back to "Unknown", and a slug is used when the
  provider sends no id. `AcrCloudTypes` models the serde defaults for missing
  `metadata`, `music` and `score`.
- **Outcome classification** (`RecognitionResponse.CreateRecognitionResponse`).
  An outcome becomes a status and a body. Errors are told apart by substring
  tests, and the first test that matches wins.
- **The facade** (`AcrCloudClient.RecognizeBase64Audio`). It decodes, then
  identifies, then normalises. A ghost log `sent` records every request
  `IdentifyAudio` hands to the transport, so "nothing is sent on a decode
  failure" can be stated and proved.

The libraries the client calls are uninterpreted total functions
(`Collaborators.Crypto`): HMAC-SHA1 (RFC 2104 over FIPS 180-4 SHA-1), and the
encoder and decoder of standard padded base64 (section 4 of RFC 4648). The
reqwest client, together with JSON deserialisation, is the `Transport` function
held by the client. The clock is a parameter: identification takes `now` in
seconds since the Unix epoch and renders it as `u64::to_string` would.
UTF-8 (`as_bytes`) is modelled concretely, and its decoder is proved to
invert it. Signatures are functions of their inputs, so equal inputs give
equal signatures by construction.

Two behaviours of the code that the model keeps as they are:

- The code has no tagged error kinds. Errors are strings, and the HTTP status
  comes only from substring tests on the message. So a provider or transport
  message that mentions "No music matches found" is answered 404. One that
  mentions "Failed to decode base64" is answered 400, unless it also mentions
  the no-match phrase (`RecognitionResponse.CreateRecognitionResponse`; for
  provider errors, `RecognitionResponse.ProviderErrorStatus`).
- Credentials are not checked for emptiness. The environment loader only
  checks that the variables exist. The model's constructor accepts any strings.

## Model

| member | source | states |
|---|---|---|
| Signing.StringToSign | src/acrcloud_api.rs:85-88 | the string-to-sign starts with `POST\n/v1/identify\n` and its length is that of the prefix, the four fields and three newlines |
| Signing.StringToSignIsJoin | src/acrcloud_api.rs:85-88 | the string-to-sign is method, URI, access key, data type, version and timestamp, joined by newlines in that order |
| Signing.StringToSignLines | src/acrcloud_api.rs:85-88 | splitting the string-to-sign at newlines gives back exactly those six lines when no field contains a newline |
| Signing.StringToSignInjective | src/acrcloud_api.rs:85-88 | newline-free access key, data type, version and timestamp are determined by the string-to-sign |
| Signing.Signature | src/acrcloud_api.rs:85-93 | the signature is base64 of HMAC-SHA1, keyed by the UTF-8 secret, over the UTF-8 bytes of the prefix, the key, the data type, the version and the timestamp, with newlines between them |
| Signing.SignedBytes | src/acrcloud_api.rs:90-92 | the bytes fed to the MAC are the UTF-8 bytes of the fixed prefix followed by those of each field and separator, in order |
| Signing.HmacSha1.NewFromSlice | src/acrcloud_api.rs:90-91 | a new MAC state keeps the function and key and has consumed nothing |
| Signing.HmacSha1.Update | src/acrcloud_api.rs:92 | `update` appends the data to the consumed message |
| Signing.HmacSha1.Finalize | src/acrcloud_api.rs:93 | the tag is the HMAC of the key over everything consumed |
| AcrCloudApi.AcrCloudClient.CreateSignature | src/acrcloud_api.rs:79-94 | the signature is base64(HMAC-SHA1(UTF-8 secret, UTF-8 string-to-sign)) for the client's own key and secret |
| IdentifyForm.BuildForm | src/acrcloud_api.rs:225-241 | the form has exactly seven parts |
| IdentifyForm.FormShape | src/acrcloud_api.rs:225-241 | the part names are sample, access_key, sample_bytes, timestamp, signature, data_type, signature_version, in that order, with no name twice |
| IdentifyForm.FormFields | src/acrcloud_api.rs:226-241 | read by name, the form gives the audio with its file name and `audio/wav`, the key, the decimal audio length (which parses back to the length), the timestamp, the signature, the data type and the version |
| IdentifyForm.LookupDistinct | src/acrcloud_api.rs:225-241 | in a form whose names are distinct, looking up a part's name finds that part |
| IdentifyForm.Names | src/acrcloud_api.rs:225-241 | the name list has one entry per part, in order |
| IdentifyForm.Lookup | src/acrcloud_api.rs:225-241 | a lookup succeeds exactly when some part has the name, and then returns the body of a part with that name |
| AcrCloudApi.AcrCloudClient.CreateIdentifyForm | src/acrcloud_api.rs:215-242 | the form is built with the signature of the same timestamp, data type and version |
| AcrCloudApi.IdentifyUrl | src/acrcloud_api.rs:137 | the endpoint is `https://`, then exactly the client's host, then the path `/v1/identify` |
| AcrCloudApi.IdentifyUrlInjective | src/acrcloud_api.rs:137 | different hosts give different endpoints |
| AcrCloudApi.AcrCloudClient.constructor | src/acrcloud_api.rs:55-62 | a new client keeps the host, key and secret it was given, and has sent nothing |
| AcrCloudApi.AcrCloudClient.IdentifyRequest | src/acrcloud_api.rs:119-137 | the request goes to the client's identify endpoint, with the seven fields in order: the audio under its file name as `audio/wav`, the key, the decimal audio length, the timestamp, the signature of that timestamp, "audio" and "1" |
| AcrCloudApi.AcrCloudClient.Recognition | src/acrcloud_api.rs:244-253 | a decode failure is the prefixed decoder message; once the audio decodes, a transport error reaches the caller unchanged and a transport answer is processed, its provider error, no-match error or success included; a success needs decoded audio and a transport answer |
| AcrCloudApi.AcrCloudClient.IdentifyAudio | src/acrcloud_api.rs:115-135 | one request is sent, for the form of the rendered clock reading with data type "audio" and version "1", and its outcome is returned unchanged |
| AcrCloudApi.AcrCloudClient.DecodeBase64 | src/acrcloud_api.rs:160-164 | decoded bytes pass through; a decode failure becomes the decoder's message behind "Failed to decode base64 audio data: " |
| AcrCloudApi.AcrCloudClient.RecognizeBase64Audio | src/acrcloud_api.rs:244-253 | a decode failure returns at once and sends nothing; otherwise exactly one request is sent, for the decoded audio under "recorded_audio.wav", and its outcome is normalised |
| AcrCloudApi.DecodeFailureShortCircuits | src/acrcloud_api.rs:248 | after a decode failure the error text starts with the decode prefix |
| AcrCloudApi.FacadeRequestContents | src/acrcloud_api.rs:126-135 | the facade's request carries the decoded audio, "recorded_audio.wav", "audio", "1", the key, the length, the timestamp and the signature of that same timestamp |
| AcrCloudApi.DecodeFailureStatus | src/acrcloud_api.rs:272-275 | a decode failure is answered 400 with its message as body, or 404 if the decoder's own text mentions "No music matches found" |
| AcrCloudApi.TransportErrorPropagates | src/acrcloud_api.rs:250 | a transport error reaches the caller unchanged |
| AcrCloudApi.SuccessIsNormalisedResponse | src/acrcloud_api.rs:250-252 | a successful recognition is the first match of a code-0 response to the one request sent, and is answered 200 |
| AcrCloudApi.DecodePrefixShape | src/acrcloud_api.rs:163 | the decode prefix has no "N" and begins with "Failed to decode base64" |
| AcrCloudTypes.MusicFromWire | src/acrcloud_api.rs:33-40 | a missing score reads as 0; title, artists and id are kept |
| AcrCloudTypes.MusicListFromWire | src/acrcloud_api.rs:29-30 | every match keeps its position |
| AcrCloudTypes.MetadataFromWire | src/acrcloud_api.rs:27-31 | a missing music list reads as empty |
| AcrCloudTypes.ResponseFromWire | src/acrcloud_api.rs:14-19 | a missing metadata object reads as the default, with no matches |
| AcrCloudTypes.AbsentMetadataMeansNoMatches | src/acrcloud_api.rs:17-18 | without metadata, or without music in it, there are no matches |
| AcrCloudTypes.WireMatchesPreserved | src/acrcloud_api.rs:29-38 | each match keeps its position, title, artists and id, and only a missing score changes |
| Normalise.ProcessResponse | src/acrcloud_api.rs:167-212 | the result is a success exactly when the code is 0 and there is a match; a non-zero code gives the provider error; code 0 with no match gives "No music matches found"; a success is built from the first match |
| Normalise.ProviderErrorMessage | src/acrcloud_api.rs:172-175 | the text is "ACRCloud error: ", then the provider's message verbatim, then " (code: ", the decimal code and ")" |
| Normalise.ProviderErrorMessageInjective | src/acrcloud_api.rs:172-175 | the error text determines the provider's message and code |
| Normalise.ProviderErrorIgnoresMetadata | src/acrcloud_api.rs:171-176 | a non-zero code yields an error whatever the metadata holds |
| Normalise.OnlyFirstMatchMatters | src/acrcloud_api.rs:183 | matches after the first have no effect |
| Normalise.OnlyFirstArtistMatters | src/acrcloud_api.rs:185-189 | artists after the first have no effect |
| Normalise.ResolveArtist | src/acrcloud_api.rs:185-189 | the artist is the first listed name, or "Unknown" when none is listed |
| Normalise.ResultOf | src/acrcloud_api.rs:204-209 | the title is copied verbatim, the artist is resolved, the confidence is score/100 and the id follows the id rule |
| Normalise.SongId | src/acrcloud_api.rs:192-202 | the provider id verbatim when present, even when empty; otherwise the fallback of the title and the resolved artist |
| Normalise.Slug | src/acrcloud_api.rs:198-199 | a slug has the length of its text |
| Normalise.SlugAt | src/acrcloud_api.rs:198-199 | each slug character is the lower-cased character, with a space turned into a hyphen |
| Normalise.SlugIsSlugText | src/acrcloud_api.rs:198-199 | a slug has no space and no upper-case ASCII letter |
| Normalise.FallbackSongId | src/acrcloud_api.rs:196-200 | the fallback is the title's slug, a hyphen at position |title|, then the artist's slug |
| Normalise.FallbackSongIdIsSlug | src/acrcloud_api.rs:196-200 | the fallback id has no space and no upper-case ASCII letter |
| Normalise.FallbackSongIdIgnoresCase | src/acrcloud_api.rs:196-200 | lower-casing title and artist first does not change the fallback id |
| Normalise.FallbackSongIdCollision | src/acrcloud_api.rs:196-200 | the fallback is not injective: "a b" by "c" and "a" by "b c" both give "a-b-c" |
| Normalise.SuccessSongId | src/acrcloud_api.rs:192-202 | on success the id is the provider id when present; otherwise it is a slug, and with no artists it ends in "-unknown" |
| Normalise.UnknownArtistSongId | src/acrcloud_api.rs:188-199 | with no id and no artists the id is the title's slug followed by "-unknown" |
| Normalise.ImagineExample | src/acrcloud_api.rs:167-212 | "Imagine" by John Lennon at score 82.5 with no id gives confidence 0.825 and id "imagine-john-lennon" |
| Normalise.ProviderIdExample | src/acrcloud_api.rs:192-193 | a provider id "abc123" is the song id, whatever the title and artists |
| Normalise.AbsentMetadataIsNoMatch | src/acrcloud_api.rs:17-18 | a code-0 response without metadata gives "No music matches found" |
| Normalise.AbsentScoreIsZeroConfidence | src/acrcloud_api.rs:37-38 | a first match without a score gives confidence 0 |
| RecognitionResponse.CreateRecognitionResponse | src/acrcloud_api.rs:255-281 | Ok gives 200 with the result; an error keeps its message as body and gives 404 exactly when it mentions "No music matches found", 400 exactly when it does not but mentions "Failed to decode base64", 500 otherwise |
| RecognitionResponse.OkIffSuccess | src/acrcloud_api.rs:259-267 | the status is 200 exactly for a success |
| RecognitionResponse.NoMatchesIsNotFound | src/acrcloud_api.rs:178-180 | a code-0 response without matches is answered 404 with "No music matches found" |
| RecognitionResponse.ProviderMessageContains | src/acrcloud_api.rs:172-175 | the provider error text contains either phrase exactly when the provider's own message does |
| RecognitionResponse.ProviderErrorStatus | src/acrcloud_api.rs:171-176 | a provider error is 404 if the provider's message mentions "No music matches found", else 400 if it mentions "Failed to decode base64", else 500 |
| RecognitionResponse.ProviderNoMatchTextIsNotFound | src/acrcloud_api.rs:272-273 | a non-zero code whose message is "No music matches found" is still answered 404, because that test runs first |
| RecognitionResponse.ProviderFrameShape | src/acrcloud_api.rs:173 | the text around the provider message has no "N" and no "F", and the suffix opens with " (" |
| RecognitionResponse.PhraseShapes | src/acrcloud_api.rs:272-274 | both phrases start with a letter and never have a space before "(" |
| Text.Contains | src/acrcloud_api.rs:272-274 | a contained pattern is no longer than the text, and the empty pattern is contained everywhere |
| Text.ContainsIffOccurs | src/acrcloud_api.rs:272-274 | `contains` holds exactly when the pattern occurs at some index |
| Text.ContainsInRight | src/acrcloud_api.rs:272-274 | an occurrence in the right part of a concatenation is an occurrence in the whole |
| Text.ContainsInLeft | src/acrcloud_api.rs:272-274 | an occurrence in the left part of a concatenation is an occurrence in the whole |
| Text.StartsWithContains | src/acrcloud_api.rs:272-274 | a prefix is contained |
| Text.ContainsAfterPrefix | src/acrcloud_api.rs:272-274 | a prefix that lacks the pattern's first letter does not change containment |
| Text.ContainsBeforeSuffix | src/acrcloud_api.rs:272-274 | a suffix that opens with " (" and lacks the pattern does not change containment |
| Text.NoFirstCharNoContains | src/acrcloud_api.rs:272-274 | a text that lacks the pattern's first letter does not contain it |
| Text.ContainsInFramed | src/acrcloud_api.rs:272-274 | a framed message contains the pattern exactly when the message does |
| Text.Lower | src/acrcloud_api.rs:198-199 | lower-casing keeps the length, leaves no upper-case ASCII letter and changes nothing else |
| Text.LowerAt | src/acrcloud_api.rs:198-199 | each character is lowered on its own: `A`..`Z` become `a`..`z` and every other character stays |
| Text.LowerIdempotent | src/acrcloud_api.rs:198-199 | lower-casing twice is lower-casing once |
| Text.ReplaceChar | src/acrcloud_api.rs:198-199 | replacing a character keeps the length |
| Text.ReplaceCharAt | src/acrcloud_api.rs:198-199 | each character is replaced exactly when it is the one looked for |
| Text.ReplaceCharRemoves | src/acrcloud_api.rs:198-199 | after the replacement the character is gone and the others are untouched |
| Text.NatToString | src/acrcloud_api.rs:237 | the decimal rendering is non-empty, all digits, with no leading zero |
| Text.ParseDecimalOfNatToString | src/acrcloud_api.rs:237 | the decimal rendering reads back as the number |
| Text.IntToStringInjective | src/acrcloud_api.rs:173-174 | different codes render differently |
| Text.NatToStringInjective | src/acrcloud_api.rs:120-124 | different numbers render differently, so different clock readings give different timestamps |
| Text.IntToString | src/acrcloud_api.rs:173-174 | the code is rendered as a minus sign for negative numbers, then decimal digits |
| Text.SplitJoin | src/acrcloud_api.rs:85-88 | splitting at a separator undoes joining with it when no piece contains it |
| Utf8.EncodeChar | src/acrcloud_api.rs:92 | one character takes one to four bytes, and exactly one when it is ASCII |
| Utf8.Encode | src/acrcloud_api.rs:90-92 | the UTF-8 form of a string is at least as long as the string and at most four times as long |
| Utf8.DecodeEncode | src/acrcloud_api.rs:92 | decoding the UTF-8 bytes of a string gives the string back |
| Utf8.EncodeDecode | src/acrcloud_api.rs:92 | every byte string the decoder accepts is the encoding of what it decodes to |
| Utf8.EncodeInjective | src/acrcloud_api.rs:90-92 | different strings have different bytes, for the secret and for the string-to-sign |
| Utf8.EncodeAppend | src/acrcloud_api.rs:92 | the bytes of a concatenation are the concatenation of the bytes |
| Utf8.EncodeAscii | src/acrcloud_api.rs:92 | an ASCII string encodes one byte per character, each byte equal to the character's code |

## Left out

- The network. The reqwest call, the HTTP status check, reading the body and
  JSON parsing (src/acrcloud_api.rs:137-156) are the uninterpreted `Transport`.
  Its error texts ("Request failed: ...", "Failed to parse response: ...")
  are not spelled out.
- HMAC-SHA1 and base64. They are uninterpreted (`Collaborators.Crypto`); the model knows only that the digest is 20 bytes.
- `identify_file`, because it does file I/O (src/acrcloud_api.rs:97-113).
- `from_env`, because it reads dotenv and environment variables (src/acrcloud_api.rs:64-77).
- The clock. `SystemTime::now()` is the parameter `now`, a `nat`. So the panic
  of `duration_since(UNIX_EPOCH).unwrap()` on a clock set before the epoch
  (src/acrcloud_api.rs:120-122) is not modelled.
- Logging, and actix's response construction beyond the status and the body.
- Text.Lower, Text.LowerAt, Normalise.Slug, Normalise.SlugAt,
  Normalise.FallbackSongId: model only the ASCII case mapping. Rust's
  `to_lowercase` maps all of Unicode and can change a string's length
  ('İ' becomes "i̇"). So a slug having the length of its text, the hyphen at
  position |title| of the fallback id, and the per-character lowering hold
  only for the ASCII mapping.
- Normalise.ResultOf: the confidence is the exact real score/100. The f64
  division and the cast to f32 (src/acrcloud_api.rs:207) are not modelled.
  No clamping happens in either.
- IdentifyForm.BuildForm: the audio part always carries `audio/wav`. Setting
  that constant MIME type cannot fail, so the fallback to an untyped part
  (src/acrcloud_api.rs:231-234) is left out.
- Multipart boundaries and the wire encoding of the form. The form is a
  sequence of named parts.
- Asynchrony and concurrency. Every call is modelled as a sequential step.
- The HTTP routing (src/api.rs, src/main.rs), the browser client
  (static/app.ts) and the placeholder modules (src/magenta.rs,
  src/recognition.rs, src/staff_notation.rs, src/audio.rs). They hold no
  logic of the recognition client.
