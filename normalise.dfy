/**
 * Response normalisation (`process_response`): a deserialised provider
 * response becomes a recognition result or an error message.
 */
module Normalise {
  import opened Wrappers
  import opened Text
  import opened AcrCloudTypes
  import opened Models

  const NoMatchesMessage := "No music matches found"
  const UnknownArtist := "Unknown"

  /** `format!("ACRCloud error: {} (code: {})", msg, code)` */
  function ProviderErrorMessage(status: Status): (m: string)
    ensures StartsWith(m, "ACRCloud error: ")
    ensures |m| == 16 + |status.msg| + 8 + |IntToString(status.code)| + 1
    ensures m[16..16 + |status.msg|] == status.msg
    ensures m[16 + |status.msg|..|m| - 1 - |IntToString(status.code)|] == " (code: "
    ensures m[|m| - 1 - |IntToString(status.code)|..|m| - 1] == IntToString(status.code)
    ensures m[|m| - 1] == ')'
  {
    "ACRCloud error: " + status.msg + " (code: " + IntToString(status.code) + ")"
  }

  /**
   * The error text determines the provider's status: the code's digits hold
   * no space, so the last " (code: " of the text is the one the frame added.
   */
  lemma ProviderErrorMessageInjective(s1: Status, s2: Status)
    requires ProviderErrorMessage(s1) == ProviderErrorMessage(s2)
    ensures s1 == s2
  {
    var m := ProviderErrorMessage(s1);
    var c1, c2 := IntToString(s1.code), IntToString(s2.code);
    ProviderErrorCodeSpan(s1);
    ProviderErrorCodeSpan(s2);
    assert |c1| == |c2|;
    assert s1.msg == m[16..16 + |s1.msg|] == s2.msg;
    assert c1 == m[|m| - 1 - |c1|..|m| - 1] == c2;
    IntToStringInjective(s1.code, s2.code);
  }

  /** The code's digits, which hold no space, sit right after the last space of the text. */
  lemma ProviderErrorCodeSpan(st: Status)
    ensures var m, c := ProviderErrorMessage(st), IntToString(st.code);
            && m[|m| - 2 - |c|] == ' '
            && forall j :: |m| - 1 - |c| <= j < |m| - 1 ==> m[j] != ' '
  {
    var m, c := ProviderErrorMessage(st), IntToString(st.code);
    assert m[|m| - 2 - |c|] == " (code: "[7];
    forall j | |m| - 1 - |c| <= j < |m| - 1 ensures m[j] != ' ' {
      assert m[j] == c[j - (|m| - 1 - |c|)];
    }
  }

  /** The name of the first listed artist, or `"Unknown"` when none is listed. */
  function ResolveArtist(m: Music): (artist: string)
    ensures |m.artists| > 0 ==> artist == m.artists[0].name
    ensures |m.artists| == 0 ==> artist == UnknownArtist
  {
    if |m.artists| > 0 then m.artists[0].name else UnknownArtist
  }

  /** One half of the fallback id: lower-cased, spaces turned into hyphens. */
  function Slug(s: string): (r: string)
    ensures |r| == |s|
  {
    ReplaceChar(Lower(s), ' ', '-')
  }

  /** What a slug keeps: no space, no upper-case ASCII letter. */
  ghost predicate IsSlugText(r: string) {
    forall i :: 0 <= i < |r| ==> r[i] != ' ' && !IsUpperAscii(r[i])
  }

  /**
   * Each character of the slug is the lower-cased character, with a space
   * turned into a hyphen; so a slug has no space and no upper-case letter.
   */
  lemma SlugAt(s: string, i: int)
    requires 0 <= i < |s|
    ensures Slug(s)[i] == if s[i] == ' ' then '-' else LowerChar(s[i])
  {
    ReplaceCharAt(Lower(s), ' ', '-', i);
    LowerAt(s, i);
  }

  /** Checks a slug character by character. */
  lemma SlugIs(s: string, t: string)
    requires |s| == |t|
    requires forall i :: 0 <= i < |s| ==> t[i] == if s[i] == ' ' then '-' else LowerChar(s[i])
    ensures Slug(s) == t
  {
    forall i | 0 <= i < |s| ensures Slug(s)[i] == t[i] {
      SlugAt(s, i);
    }
  }

  lemma SlugOfUnknown()
    ensures Slug(UnknownArtist) == "unknown"
  {
    SlugIs(UnknownArtist, "unknown");
  }

  lemma SlugOfJohnLennon()
    ensures Slug("John Lennon") == "john-lennon"
  {
    SlugIs("John Lennon", "john-lennon");
  }

  lemma SlugIsSlugText(s: string)
    ensures IsSlugText(Slug(s))
  {
    forall i | 0 <= i < |s| ensures Slug(s)[i] != ' ' && !IsUpperAscii(Slug(s)[i]) {
      SlugAt(s, i);
    }
  }

  /** The id made up when the provider sends none: slug of title, a hyphen, slug of artist. */
  function FallbackSongId(title: string, artist: string): (id: string)
    ensures |id| == |title| + 1 + |artist|
    ensures id[|title|] == '-'
    ensures id[..|title|] == Slug(title) && id[|title| + 1..] == Slug(artist)
  {
    Slug(title) + "-" + Slug(artist)
  }

  /** The fallback id contains neither a space nor an upper-case ASCII letter. */
  lemma FallbackSongIdIsSlug(title: string, artist: string)
    ensures IsSlugText(FallbackSongId(title, artist))
  {
    var id := FallbackSongId(title, artist);
    SlugIsSlugText(title);
    SlugIsSlugText(artist);
    forall i | 0 <= i < |id| ensures id[i] != ' ' && !IsUpperAscii(id[i]) {
      if i < |title| {
        assert id[i] == Slug(title)[i];
      } else if i > |title| {
        assert id[i] == Slug(artist)[i - |title| - 1];
      }
    }
  }

  /** The fallback id is blind to the case of title and artist. */
  lemma FallbackSongIdIgnoresCase(title: string, artist: string)
    ensures FallbackSongId(Lower(title), Lower(artist)) == FallbackSongId(title, artist)
  {
    LowerIdempotent(title);
    LowerIdempotent(artist);
  }

  /**
   * The fallback id is not injective: titles and artists that hold hyphens or
   * spaces can collide ("a b" by "c" and "a" by "b c" get the same id).
   */
  lemma FallbackSongIdCollision()
    ensures FallbackSongId("a b", "c") == FallbackSongId("a", "b c") == "a-b-c"
  {
    assert Slug("a b") == "a-b" by { SlugAt("a b", 0); SlugAt("a b", 1); SlugAt("a b", 2); }
    assert Slug("b c") == "b-c" by { SlugAt("b c", 0); SlugAt("b c", 1); SlugAt("b c", 2); }
    assert Slug("a") == "a" by { SlugAt("a", 0); }
    assert Slug("c") == "c" by { SlugAt("c", 0); }
  }

  /** The provider's id verbatim when present (even when empty), else the fallback. */
  function SongId(m: Music, artist: string): (id: string)
    ensures m.acrid.Some? ==> id == m.acrid.value
    ensures m.acrid.None? ==> id == FallbackSongId(m.title, artist)
  {
    match m.acrid
    case Some(acrid) => acrid
    case None => FallbackSongId(m.title, artist)
  }

  /** The result built from the best match alone. */
  function ResultOf(m: Music): (r: MusicRecognitionResult)
    ensures r.title == m.title && r.artist == ResolveArtist(m)
    ensures r.confidence == m.score / 100.0
    ensures r.songId == SongId(m, ResolveArtist(m))
  {
    var artist := ResolveArtist(m);
    MusicRecognitionResult(m.title, artist, m.score / 100.0, SongId(m, artist))
  }

  /**
   * `process_response`: a non-zero status code is a provider error; otherwise
   * an empty match list is "no matches"; otherwise the first match is the result.
   */
  function ProcessResponse(response: AcrCloudResponse): (r: Result<MusicRecognitionResult, string>)
    ensures r.Ok? <==> response.status.code == 0 && |response.metadata.music| > 0
    ensures response.status.code != 0 ==> r == Err(ProviderErrorMessage(response.status))
    ensures response.status.code == 0 && response.metadata.music == [] ==> r == Err(NoMatchesMessage)
    ensures r.Ok? ==> r.value == ResultOf(response.metadata.music[0])
  {
    if response.status.code != 0 then
      Err(ProviderErrorMessage(response.status))
    else if |response.metadata.music| == 0 then
      Err(NoMatchesMessage)
    else
      Ok(ResultOf(response.metadata.music[0]))
  }

  /** A non-zero status code decides the outcome whatever the metadata holds. */
  lemma ProviderErrorIgnoresMetadata(status: Status, m1: Metadata, m2: Metadata)
    requires status.code != 0
    ensures ProcessResponse(AcrCloudResponse(status, m1)) == ProcessResponse(AcrCloudResponse(status, m2))
    ensures ProcessResponse(AcrCloudResponse(status, m1)).Err?
  {
  }

  /** Matches after the first have no effect. */
  lemma OnlyFirstMatchMatters(status: Status, m: Music, rest1: seq<Music>, rest2: seq<Music>)
    ensures ProcessResponse(AcrCloudResponse(status, Metadata([m] + rest1)))
         == ProcessResponse(AcrCloudResponse(status, Metadata([m] + rest2)))
  {
  }

  /** Artists after the first have no effect. */
  lemma OnlyFirstArtistMatters(status: Status, title: string, a: Artist, more1: seq<Artist>, more2: seq<Artist>,
                               score: real, acrid: Option<string>, rest: seq<Music>)
    ensures ProcessResponse(AcrCloudResponse(status, Metadata([Music(title, [a] + more1, score, acrid)] + rest)))
         == ProcessResponse(AcrCloudResponse(status, Metadata([Music(title, [a] + more2, score, acrid)] + rest)))
  {
  }

  /**
   * On success the id is the provider's id when present; otherwise it is the
   * fallback of the title and the already-resolved artist, so a match with no
   * artists gets the suffix "unknown".
   */
  lemma SuccessSongId(response: AcrCloudResponse)
    requires ProcessResponse(response).Ok?
    ensures var m := response.metadata.music[0];
            var r := ProcessResponse(response).value;
            && (m.acrid.Some? ==> r.songId == m.acrid.value)
            && (m.acrid.None? && |m.artists| == 0 ==> r.songId == Slug(m.title) + "-unknown")
            && (m.acrid.None? ==> IsSlugText(r.songId))
  {
    var m := response.metadata.music[0];
    assert ProcessResponse(response).value == ResultOf(m);
    if m.acrid.None? {
      FallbackSongIdIsSlug(m.title, ResolveArtist(m));
      if |m.artists| == 0 {
        UnknownArtistSongId(m);
      }
    }
  }

  lemma UnknownArtistSongId(m: Music)
    requires m.acrid.None? && |m.artists| == 0
    ensures SongId(m, ResolveArtist(m)) == Slug(m.title) + "-unknown"
  {
    SlugOfUnknown();
  }

  /** The worked example: "Imagine" by John Lennon at score 82.5 with no provider id. */
  lemma ImagineExample()
    ensures ProcessResponse(AcrCloudResponse(Status(0, "Success"),
              Metadata([Music("Imagine", [Artist("John Lennon")], 82.5, None)])))
         == Ok(MusicRecognitionResult("Imagine", "John Lennon", 0.825, "imagine-john-lennon"))
  {
    var m := Music("Imagine", [Artist("John Lennon")], 82.5, None);
    FallbackOfImagine();
    assert ResultOf(m) == MusicRecognitionResult("Imagine", "John Lennon", 0.825, "imagine-john-lennon");
  }

  lemma FallbackOfImagine()
    ensures FallbackSongId("Imagine", "John Lennon") == "imagine-john-lennon"
  {
    calc {
      FallbackSongId("Imagine", "John Lennon");
      { SlugIs("Imagine", "imagine"); SlugOfJohnLennon(); }
      "imagine" + "-" + "john-lennon";
      { ImagineIdText(); }
      "imagine-john-lennon";
    }
  }

  lemma ImagineIdText()
    ensures "imagine" + "-" + "john-lennon" == "imagine-john-lennon"
  {
  }

  /** A provider id wins over the fallback rule. */
  lemma ProviderIdExample(title: string, artists: seq<Artist>, score: real)
    ensures var r := ProcessResponse(AcrCloudResponse(Status(0, "Success"),
                       Metadata([Music(title, artists, score, Some("abc123"))])));
            r.Ok? && r.value.songId == "abc123"
  {
  }

  /** A response without `metadata` and with code 0 is "no matches". */
  lemma AbsentMetadataIsNoMatch(w: WireResponse)
    requires w.status.code == 0 && w.metadata.None?
    ensures ProcessResponse(ResponseFromWire(w)) == Err(NoMatchesMessage)
  {
  }

  /** A missing score gives confidence 0. */
  lemma AbsentScoreIsZeroConfidence(status: Status, w: WireMusic, rest: seq<WireMusic>)
    requires status.code == 0 && w.score.None?
    ensures var r := ProcessResponse(ResponseFromWire(WireResponse(status, Some(WireMetadata(Some([w] + rest))))));
            r.Ok? && r.value.confidence == 0.0
  {
    var ws := [w] + rest;
    assert MusicListFromWire(ws)[0] == MusicFromWire(w);
  }
}
