/**
 * What `flush` derives from the pending list: the (artist, album) pairs it
 * collects, the tracks it puts in the browse tree, and for each pair the
 * MPD commands and search queries it refreshes. All of it is a function of
 * the pending list; the library applies it to its caches.
 */
module Flushing {
  import opened Wrappers
  import opened Keys
  import opened Models

  /** `(artist.name, album.name)`, either of which may be `None`. */
  type Pair = (Option<string>, Option<string>)

  /** One `_fill_mpd_cache(name, *arguments)` call. */
  datatype Call = Call(cmd: Command, args: seq<string>)

  /** Python truthiness of an optional name: present and not empty. */
  predicate Truthy(s: Option<string>)
  {
    s.Some? && s.value != []
  }

  /** Every pending entry is a track with an album; anything else makes `flush` raise. */
  predicate Flushable(pending: seq<Option<Track>>)
  {
    forall j :: 0 <= j < |pending| ==> pending[j].Some? && pending[j].value.album.Some?
  }

  /** The pair of each of `artists` with the album name. */
  function ArtistPairs(artists: seq<Artist>, album: Option<string>): set<Pair>
  {
    set a | a in artists :: (a.name, album)
  }

  /** The pairs one pending track contributes: one per artist of its album. */
  function TrackPairs(t: Track): set<Pair>
    requires t.album.Some?
  {
    ArtistPairs(t.album.value.artists, t.album.value.name)
  }

  /** One more artist adds its own pair. */
  lemma ArtistPairsStep(artists: seq<Artist>, album: Option<string>, k: nat)
    requires k < |artists|
    ensures ArtistPairs(artists[..k + 1], album) == ArtistPairs(artists[..k], album) + {(artists[k].name, album)}
  {
    assert artists[..k + 1] == artists[..k] + [artists[k]];
  }

  /** A prefix of a flushable pending list is flushable. */
  lemma FlushablePrefix(pending: seq<Option<Track>>, j: nat)
    requires Flushable(pending) && j <= |pending|
    ensures Flushable(pending[..j])
  {
    assert forall i :: 0 <= i < j ==> pending[..j][i] == pending[i];
  }

  /** One more pending track adds its pairs and, when its album has an artist, its uri. */
  lemma PendingStep(pending: seq<Option<Track>>, j: nat)
    requires Flushable(pending) && j < |pending|
    ensures Flushable(pending[..j]) && Flushable(pending[..j + 1])
    ensures Workload(pending[..j + 1]) == Workload(pending[..j]) + TrackPairs(pending[j].value)
    ensures BrowseUris(pending[..j + 1]) ==
      BrowseUris(pending[..j]) + if |pending[j].value.album.value.artists| > 0 then [pending[j].value.uri] else []
  {
    assert pending[..j + 1][..j] == pending[..j];
  }

  /**
   * `artist_album_set`: every (artist name, album name) pair over the
   * artists of the album of every pending track, and nothing else.
   */
  function Workload(pending: seq<Option<Track>>): set<Pair>
    requires Flushable(pending)
  {
    if pending == [] then {}
    else Workload(pending[..|pending| - 1]) + TrackPairs(pending[|pending| - 1].value)
  }

  /**
   * The collected pairs are exactly the (artist name, album name) pairs
   * over the artists of the album of every pending track.
   */
  lemma {:induction false} WorkloadPairs(pending: seq<Option<Track>>)
    requires Flushable(pending)
    ensures forall j, a :: 0 <= j < |pending| && a in pending[j].value.album.value.artists ==>
      (a.name, pending[j].value.album.value.name) in Workload(pending)
    ensures forall p :: p in Workload(pending) ==> exists j, a ::
      0 <= j < |pending| && a in pending[j].value.album.value.artists &&
      p == (a.name, pending[j].value.album.value.name)
    decreases |pending|
  {
    if pending != [] {
      var n := |pending| - 1;
      WorkloadPairs(pending[..n]);
      assert forall j :: 0 <= j < n ==> pending[..n][j] == pending[j];
    }
  }

  /**
   * The uris `flush` puts in the browse tree, in order: each pending track
   * whose album has at least one artist. (It is put in once per artist;
   * every put after the first changes nothing.)
   */
  function BrowseUris(pending: seq<Option<Track>>): seq<string>
    requires Flushable(pending)
  {
    if pending == [] then []
    else
      var t := pending[|pending| - 1].value;
      var rest := BrowseUris(pending[..|pending| - 1]);
      if |t.album.value.artists| > 0 then rest + [t.uri] else rest
  }

  /** A uri is browsed exactly when it is the uri of a pending track whose album has an artist. */
  lemma {:induction false} BrowseUrisMembers(pending: seq<Option<Track>>)
    requires Flushable(pending)
    ensures forall u :: u in BrowseUris(pending) <==>
      (exists j :: 0 <= j < |pending| && |pending[j].value.album.value.artists| > 0 && pending[j].value.uri == u)
    decreases |pending|
  {
    if pending != [] {
      var n := |pending| - 1;
      BrowseUrisMembers(pending[..n]);
      assert forall j :: 0 <= j < n ==> pending[..n][j] == pending[j];
    }
  }

  /** The single-field query `{field: [value]}`. */
  function Only(field: string, value: string): (q: Query)
    ensures q.Fields? && q.fields.Keys == {field} && q.fields[field] == [value]
  {
    Fields(map[field := [value]])
  }

  /** The two-field query `{"album": [album], field: [value]}`. */
  function WithAlbum(album: string, field: string, value: string): (q: Query)
    requires field != "album"
    ensures q.Fields? && q.fields.Keys == {"album", field}
    ensures q.fields["album"] == [album] && q.fields[field] == [value]
  {
    Fields(map["album" := [album], field := [value]])
  }

  /**
   * The queries `_fill_search_cache` refreshes for one pair: by artist and
   * by album artist when the artist is set, by album when the album is
   * set, and by album with artist and with album artist when both are.
   */
  function SearchShapes(artist: Option<string>, album: Option<string>): set<Query>
  {
    (if Truthy(artist) then ArtistQueries(artist.value) else {})
    + (if Truthy(album) then AlbumQueries(album.value) else {})
    + (if Truthy(artist) && Truthy(album) then PairQueries(artist.value, album.value) else {})
  }

  /**
   * Nothing is searched for a pair with neither name set; every query
   * searched is a non-empty filter on field names, by this pair's artist on
   * the artist fields and by its album on the album field.
   */
  lemma SearchShapesFields(artist: Option<string>, album: Option<string>)
    ensures !Truthy(artist) && !Truthy(album) ==> SearchShapes(artist, album) == {}
    ensures forall q :: q in SearchShapes(artist, album) ==>
      q.Fields? && q.fields != map[] && q.fields.Keys <= FieldNames
    ensures forall q, f :: q in SearchShapes(artist, album) && f in q.fields && f != "album" ==>
      Truthy(artist) && q.fields[f] == [artist.value]
    ensures forall q :: q in SearchShapes(artist, album) && "album" in q.fields ==>
      Truthy(album) && q.fields["album"] == [album.value]
  {
    forall q | q in SearchShapes(artist, album)
      ensures q.Fields? && q.fields != map[] && q.fields.Keys <= FieldNames
      ensures forall f :: f in q.fields && f != "album" ==> Truthy(artist) && q.fields[f] == [artist.value]
      ensures "album" in q.fields ==> Truthy(album) && q.fields["album"] == [album.value]
    {
      ShapeFields(artist, album, q);
    }
  }

  /** `SearchShapesFields` for one query of the pair's shapes. */
  lemma ShapeFields(artist: Option<string>, album: Option<string>, q: Query)
    requires q in SearchShapes(artist, album)
    ensures q.Fields? && q.fields != map[] && q.fields.Keys <= FieldNames
    ensures forall f :: f in q.fields && f != "album" ==> Truthy(artist) && q.fields[f] == [artist.value]
    ensures "album" in q.fields ==> Truthy(album) && q.fields["album"] == [album.value]
  {
  }

  /** The searches refreshed for a set artist, in source order. */
  function ArtistQueries(a: string): set<Query>
  {
    {Only("albumartist", a)} + {Only("artist", a)}
  }

  /** The search refreshed for a set album. */
  function AlbumQueries(al: string): set<Query>
  {
    {Only("album", al)}
  }

  /** The searches refreshed when both are set, in source order. */
  function PairQueries(a: string, al: string): set<Query>
  {
    {WithAlbum(al, "artist", a)} + {WithAlbum(al, "albumartist", a)}
  }

  /** The tokens other than this pair's names that refreshed commands use. */
  const Keywords: set<string> := FieldNames + {"track", "1", "01"}

  /** The MPD commands refreshed for a set artist, in source order. */
  function ArtistCalls(a: string): seq<Call>
  {
    [ Call(List, ["album", "artist", a]),
      Call(List, ["album", "albumartist", a]),
      Call(Find, ["artist", a]),
      Call(Find, ["albumartist", a]),
      Call(List, ["album", a]) ]
  }

  /** The MPD commands refreshed for a set album, in source order. */
  function AlbumCalls(al: string): seq<Call>
  {
    [ Call(List, ["album", al]),
      Call(Find, ["album", al]) ]
  }

  /** The MPD commands refreshed when both are set, in source order. */
  function PairCalls(a: string, al: string): seq<Call>
  {
    [ Call(Find, ["albumartist", a, "album", al]),
      Call(Find, ["album", al, "albumartist", a]),
      Call(Find, ["artist", a, "album", al]),
      Call(Count, ["albumartist", a, "album", al]),
      Call(Count, ["album", al, "albumartist", a]),
      Call(List, ["albumartist", "artist", a, "album", al]),
      Call(Count, ["artist", a, "album", al]),
      Call(Find, ["albumartist", a, "album", al, "track", "1"]),
      Call(Find, ["albumartist", a, "album", al, "track", "01"]) ]
  }

  /** All MPD commands refreshed for one pair, in source order. */
  function MpdCalls(artist: Option<string>, album: Option<string>): seq<Call>
  {
    (if Truthy(artist) then ArtistCalls(artist.value) else [])
    + (if Truthy(album) then AlbumCalls(album.value) else [])
    + (if Truthy(artist) && Truthy(album) then PairCalls(artist.value, album.value) else [])
  }

  /**
   * Five commands for a set artist, two for a set album and nine more when
   * both are set, each made of keywords and this pair's own names.
   */
  lemma MpdCallsShape(artist: Option<string>, album: Option<string>)
    ensures |MpdCalls(artist, album)| == (if Truthy(artist) then 5 else 0) + (if Truthy(album) then 2 else 0)
                                        + (if Truthy(artist) && Truthy(album) then 9 else 0)
    ensures forall c, t :: c in MpdCalls(artist, album) && t in c.args ==>
      t in Keywords || (Truthy(artist) && t == artist.value) || (Truthy(album) && t == album.value)
  {
    var ca := if Truthy(artist) then ArtistCalls(artist.value) else [];
    var cb := if Truthy(album) then AlbumCalls(album.value) else [];
    var cc := if Truthy(artist) && Truthy(album) then PairCalls(artist.value, album.value) else [];
    if Truthy(artist) { ArtistCallsTokens(artist.value); }
    if Truthy(album) { AlbumCallsTokens(album.value); }
    if Truthy(artist) && Truthy(album) { PairCallsTokens(artist.value, album.value); }
    forall c: Call, t | c in ca + cb + cc && t in c.args
      ensures t in Keywords || (Truthy(artist) && t == artist.value) || (Truthy(album) && t == album.value)
    {
      if c in ca {
      } else if c in cb {
      } else {
        assert c in cc;
      }
    }
  }

  lemma ArtistCallsTokens(a: string)
    ensures forall c, t :: c in ArtistCalls(a) && t in c.args ==> t in Keywords || t == a
  {
  }

  lemma AlbumCallsTokens(al: string)
    ensures forall c, t :: c in AlbumCalls(al) && t in c.args ==> t in Keywords || t == al
  {
  }

  lemma PairCallsTokens(a: string, al: string)
    ensures forall c, t :: c in PairCalls(a, al) && t in c.args ==> t in Keywords || t == a || t == al
  {
  }

  /** The MPD cache keys that a list of calls writes. */
  function KeysOfCalls(calls: seq<Call>): set<MpdKey>
  {
    set c | c in calls :: CacheKey(c.cmd, c.args)
  }

  lemma KeysOfCallsAppend(a: seq<Call>, b: seq<Call>)
    ensures KeysOfCalls(a + b) == KeysOfCalls(a) + KeysOfCalls(b)
  {
    forall k | k in KeysOfCalls(a + b) ensures k in KeysOfCalls(a) + KeysOfCalls(b) {
      var c :| c in a + b && k == CacheKey(c.cmd, c.args);
    }
  }

  /** The keys of a pair's commands are those of its three blocks, added in turn. */
  lemma MpdCallsKeys(artist: Option<string>, album: Option<string>, s: set<MpdKey>)
    ensures s + KeysOfCalls(MpdCalls(artist, album)) ==
      s + KeysOfCalls(if Truthy(artist) then ArtistCalls(artist.value) else [])
        + KeysOfCalls(if Truthy(album) then AlbumCalls(album.value) else [])
        + KeysOfCalls(if Truthy(artist) && Truthy(album) then PairCalls(artist.value, album.value) else [])
  {
    var ca := if Truthy(artist) then ArtistCalls(artist.value) else [];
    var cb := if Truthy(album) then AlbumCalls(album.value) else [];
    var cc := if Truthy(artist) && Truthy(album) then PairCalls(artist.value, album.value) else [];
    KeysOfCallsAppend(ca + cb, cc);
    KeysOfCallsAppend(ca, cb);
  }

  /** No two of the calls write the same cache key. */
  predicate DistinctKeys(calls: seq<Call>)
  {
    forall i, j :: 0 <= i < j < |calls| ==>
      CacheKey(calls[i].cmd, calls[i].args) != CacheKey(calls[j].cmd, calls[j].args)
  }

  /** A keyword token is kept as it is in the key. */
  lemma KeywordKept(cmd: Command, args: seq<string>, i: nat)
    requires i < |args| && args[i] in Keywords
    ensures CacheKey(cmd, args).tokens[i] == args[i]
  {
    LowerOfLowercase(args[i]);
  }

  /** Two calls with different keywords at the same position write different keys. */
  lemma KeysDiffer(c1: Call, c2: Call, i: nat)
    requires i < |c1.args| && i < |c2.args|
    requires c1.args[i] in Keywords && c2.args[i] in Keywords && c1.args[i] != c2.args[i]
    ensures CacheKey(c1.cmd, c1.args) != CacheKey(c2.cmd, c2.args)
  {
    KeywordKept(c1.cmd, c1.args, i);
    KeywordKept(c2.cmd, c2.args, i);
  }

  /** The five commands of the artist block write five different keys, whatever the artist. */
  lemma ArtistCallsDistinct(a: string)
    ensures DistinctKeys(ArtistCalls(a))
  {
    var cs := ArtistCalls(a);
    KeysDiffer(cs[0], cs[1], 1);
    KeysDiffer(cs[2], cs[3], 0);
  }

  /** The two commands of the album block write two different keys. */
  lemma AlbumCallsDistinct(al: string)
    ensures DistinctKeys(AlbumCalls(al))
  {
  }

  /** The nine commands of the nested block write nine different keys, whatever the names. */
  lemma PairCallsDistinct(a: string, al: string)
    ensures DistinctKeys(PairCalls(a, al))
  {
    var cs := PairCalls(a, al);
    KeysDiffer(cs[0], cs[1], 0);
    KeysDiffer(cs[0], cs[2], 0);
    KeysDiffer(cs[1], cs[2], 0);
    KeysDiffer(cs[3], cs[4], 0);
    KeysDiffer(cs[3], cs[6], 0);
    KeysDiffer(cs[4], cs[6], 0);
    KeysDiffer(cs[7], cs[8], 5);
  }

  /** The fields of the unconditional `list` refreshes at the end of `flush`. */
  const ListFields: set<string> := {"artist", "album", "albumartist"}

  /** The keys the unconditional `list` refreshes write. */
  const ListKeys: set<MpdKey> := {CacheKey(List, ["artist"]), CacheKey(List, ["album"]), CacheKey(List, ["albumartist"])}

  /** The three `list` refreshes write three different keys. */
  lemma ListKeysDistinct()
    ensures CacheKey(List, ["artist"]) != CacheKey(List, ["album"])
    ensures CacheKey(List, ["artist"]) != CacheKey(List, ["albumartist"])
    ensures CacheKey(List, ["album"]) != CacheKey(List, ["albumartist"])
  {
    FieldNamesAreLowercase("artist");
    FieldNamesAreLowercase("album");
    FieldNamesAreLowercase("albumartist");
    CacheKeyTokens(List, ["artist"]);
    CacheKeyTokens(List, ["album"]);
    CacheKeyTokens(List, ["albumartist"]);
    assert CacheKey(List, ["artist"]).tokens[0] == "artist";
    assert CacheKey(List, ["album"]).tokens[0] == "album";
    assert CacheKey(List, ["albumartist"]).tokens[0] == "albumartist";
  }

  /** The search queries refreshed for a set of pairs. */
  function RefreshedQueries(pairs: set<Pair>): set<Query>
  {
    set p, q | p in pairs && q in SearchShapes(p.0, p.1) :: q
  }

  /** No pair refreshes no query and no key. */
  lemma RefreshedNone()
    ensures RefreshedQueries({}) == {} && RefreshedMpdKeys({}) == {}
  {
  }

  /** Moving one pair from those to do to those done: fewer to do, same total. */
  lemma Moved(todo: set<Pair>, done: set<Pair>, pair: Pair)
    requires pair in todo
    ensures |todo - {pair}| < |todo|
    ensures (todo - {pair}) + (done + {pair}) == todo + done
  {
  }

  /** The MPD cache keys refreshed for a set of pairs. */
  function RefreshedMpdKeys(pairs: set<Pair>): set<MpdKey>
  {
    set p, c | p in pairs && c in MpdCalls(p.0, p.1) :: CacheKey(c.cmd, c.args)
  }

  /** The queries and keys refreshed for a single pair are its shapes and the keys of its commands. */
  lemma RefreshedOnePair(artist: Option<string>, album: Option<string>, s: set<MpdKey>)
    ensures RefreshedQueries({(artist, album)}) == SearchShapes(artist, album)
    ensures s + RefreshedMpdKeys({(artist, album)}) == s + KeysOfCalls(MpdCalls(artist, album))
  {
    RefreshedOneQueries((artist, album));
    RefreshedOneKeys((artist, album), s);
  }

  /** The keys refreshed for a single pair are those of its three blocks. */
  lemma PairKeys(artist: Option<string>, album: Option<string>)
    ensures RefreshedMpdKeys({(artist, album)}) ==
      KeysOfCalls(if Truthy(artist) then ArtistCalls(artist.value) else [])
        + KeysOfCalls(if Truthy(album) then AlbumCalls(album.value) else [])
        + KeysOfCalls(if Truthy(artist) && Truthy(album) then PairCalls(artist.value, album.value) else [])
  {
    MpdCallsKeys(artist, album, {});
    RefreshedOnePair(artist, album, {});
  }

  /** The queries refreshed for a single pair are its shapes. */
  lemma RefreshedOneQueries(p: Pair)
    ensures RefreshedQueries({p}) == SearchShapes(p.0, p.1)
  {
    forall q | q in SearchShapes(p.0, p.1) ensures q in RefreshedQueries({p}) {
      assert p in {p};
    }
  }

  /** The keys refreshed for a single pair are those of its commands. */
  lemma RefreshedOneKeys(p: Pair, s: set<MpdKey>)
    ensures s + RefreshedMpdKeys({p}) == s + KeysOfCalls(MpdCalls(p.0, p.1))
  {
    forall k | k in KeysOfCalls(MpdCalls(p.0, p.1)) ensures k in RefreshedMpdKeys({p}) {
      var c :| c in MpdCalls(p.0, p.1) && k == CacheKey(c.cmd, c.args);
      assert p in {p};
    }
  }

  /** Refreshing one more pair refreshes its queries and keys on top of the others'. */
  lemma RefreshedAddPair(done: set<Pair>, p: Pair, s: set<MpdKey>)
    ensures RefreshedQueries(done + {p}) == RefreshedQueries(done) + RefreshedQueries({p})
    ensures s + RefreshedMpdKeys(done + {p}) == s + RefreshedMpdKeys(done) + RefreshedMpdKeys({p})
  {
    forall q | q in RefreshedQueries(done + {p})
      ensures q in RefreshedQueries(done) + RefreshedQueries({p})
    {
      var p', q' :| p' in done + {p} && q' in SearchShapes(p'.0, p'.1) && q == q';
    }
    forall k | k in RefreshedMpdKeys(done + {p})
      ensures k in RefreshedMpdKeys(done) + RefreshedMpdKeys({p})
    {
      var p', c :| p' in done + {p} && c in MpdCalls(p'.0, p'.1) && k == CacheKey(c.cmd, c.args);
    }
  }

  /**
   * A client's command hits a refreshed key when it is one of the commands
   * refreshed for a collected pair, written with field names in any case.
   */
  lemma ClientCallHits(pairs: set<Pair>, p: Pair, c: Call, args: seq<string>)
    requires p in pairs && c in MpdCalls(p.0, p.1)
    requires |args| == |c.args| && forall i :: 0 <= i < |args| ==> SameToken(c.args[i], args[i])
    ensures CacheKey(c.cmd, args) in RefreshedMpdKeys(pairs)
  {
    CacheKeyEq(c.cmd, c.args, c.cmd, args);
  }

  /**
   * For every collected pair with a set artist, `find <artist> "name"` is
   * served from the cache whatever the case the client writes `artist` in.
   */
  lemma FindArtistHits(pairs: set<Pair>, artist: Option<string>, album: Option<string>, field: string)
    requires (artist, album) in pairs && Truthy(artist)
    requires Lower(field) == "artist"
    ensures CacheKey(Find, [field, artist.value]) in RefreshedMpdKeys(pairs)
  {
    var c := Call(Find, ["artist", artist.value]);
    assert c in MpdCalls(artist, album);
    FieldNamesAreLowercase("artist");
    ClientCallHits(pairs, (artist, album), c, [field, artist.value]);
  }
}
