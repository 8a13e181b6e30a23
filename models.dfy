/**
 * The parts of mopidy's track model that the library reads: a track's uri
 * and album, the album's name and artists, an artist's name.
 */
module Models {
  import opened Wrappers

  datatype Artist = Artist(name: Option<string>)

  datatype Album = Album(name: Option<string>, artists: seq<Artist>)

  datatype Track = Track(uri: string, name: Option<string>, album: Option<Album>)

  /** The value the mopidy search routines return. */
  datatype SearchResult = SearchResult(uri: string, tracks: seq<Track>)

  /** What an MPD command handler answers: a list of response pairs. */
  type Answer = seq<(string, string)>
}
