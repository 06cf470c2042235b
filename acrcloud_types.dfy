/**
 * The provider's JSON response as the client deserialises it
 * (`AcrCloudResponse`, `Status`, `Metadata`, `Music`, `Artist`), and the
 * field defaults the deserialiser applies when a field is absent.
 */
module AcrCloudTypes {
  import opened Wrappers

  /** Rust's `i32`. */
  type i32 = x: int | -0x8000_0000 <= x < 0x8000_0000

  datatype Status = Status(code: i32, msg: string)

  datatype Artist = Artist(name: string)

  /** One candidate song; `score` is the provider's 0-100 relevance, `acrid` its id when it sends one. */
  datatype Music = Music(title: string, artists: seq<Artist>, score: real, acrid: Option<string>)

  datatype Metadata = Metadata(music: seq<Music>)

  /** The response after deserialisation, best match first in `metadata.music`. */
  datatype AcrCloudResponse = AcrCloudResponse(status: Status, metadata: Metadata)

  /** A `Music` object as it arrives, before defaults: `score` may be absent. */
  datatype WireMusic = WireMusic(title: string, artists: seq<Artist>, score: Option<real>, acrid: Option<string>)

  /** A `metadata` object as it arrives: `music` may be absent. */
  datatype WireMetadata = WireMetadata(music: Option<seq<WireMusic>>)

  /** A response object as it arrives: `metadata` may be absent. */
  datatype WireResponse = WireResponse(status: Status, metadata: Option<WireMetadata>)

  /** `Metadata::default()`: no matches. */
  const DefaultMetadata := Metadata([])

  /** A missing `score` reads as `0.0`. */
  function MusicFromWire(w: WireMusic): (m: Music)
    ensures m.title == w.title && m.artists == w.artists && m.acrid == w.acrid
    ensures m.score == (if w.score.Some? then w.score.value else 0.0)
  {
    Music(w.title, w.artists, if w.score.Some? then w.score.value else 0.0, w.acrid)
  }

  function MusicListFromWire(ws: seq<WireMusic>): (ms: seq<Music>)
    ensures |ms| == |ws|
    ensures forall i :: 0 <= i < |ws| ==> ms[i] == MusicFromWire(ws[i])
  {
    seq(|ws|, i requires 0 <= i < |ws| => MusicFromWire(ws[i]))
  }

  /** A missing `music` list reads as empty. */
  function MetadataFromWire(w: WireMetadata): (m: Metadata)
    ensures w.music.None? ==> m.music == []
    ensures w.music.Some? ==> m.music == MusicListFromWire(w.music.value)
  {
    match w.music
    case None => Metadata([])
    case Some(ws) => Metadata(MusicListFromWire(ws))
  }

  /** The `#[serde(default)]` attributes: a missing `metadata` reads as `Metadata::default()`. */
  function ResponseFromWire(w: WireResponse): (r: AcrCloudResponse)
    ensures r.status == w.status
    ensures w.metadata.None? ==> r.metadata == DefaultMetadata
    ensures w.metadata.Some? ==> r.metadata == MetadataFromWire(w.metadata.value)
  {
    AcrCloudResponse(w.status, if w.metadata.Some? then MetadataFromWire(w.metadata.value) else DefaultMetadata)
  }

  /** With no `metadata`, or no `music` in it, the response has no matches. */
  lemma AbsentMetadataMeansNoMatches(w: WireResponse)
    requires w.metadata.None? || w.metadata.value.music.None?
    ensures ResponseFromWire(w).metadata.music == []
  {
  }

  /** Each match keeps its position, title, artists and id; only a missing score changes (to 0). */
  lemma WireMatchesPreserved(w: WireResponse, i: int)
    requires w.metadata.Some? && w.metadata.value.music.Some?
    requires 0 <= i < |w.metadata.value.music.value|
    ensures var m := ResponseFromWire(w).metadata.music;
            var x := w.metadata.value.music.value[i];
            i < |m| && m[i].title == x.title && m[i].artists == x.artists && m[i].acrid == x.acrid
            && m[i].score == (if x.score.Some? then x.score.value else 0.0)
  {
  }
}
