/**
 * `ZodbLibrary`: the track store, the pending-changes list and the three
 * derived caches (browse tree, search results, MPD answers), with the
 * operations that read them and the flush that refreshes them.
 */
module Zodb {
  import opened Wrappers
  import opened Keys
  import opened Paths
  import opened BrowseTree
  import opened Models
  import opened Flushing

  /**
   * What an MPD command handler can ask of the context it runs with: an
   * exact search by query (`context.core.library.find_exact(...).get()`).
   * A client's session reaches mopidy's core; the context that
   * `_fill_mpd_cache` builds answers from this library instead.
   */
  type FindExactFn = Query -> seq<SearchResult>

  /**
   * Code outside this library that it calls: mopidy's `search.find_exact`
   * and `search.search` over the whole track collection, the original MPD
   * command handlers (which see their context only through its
   * `find_exact`), and the conversion of a track uri to its decoded path.
   */
  datatype Collaborators = Collaborators(
    findExact: (map<string, Track>, Query) -> SearchResult,
    searchAll: (map<string, Track>, Query) -> SearchResult,
    handler: (Command, FindExactFn, seq<string>) -> Answer,
    trackPath: string -> string)

  // ---------------------------------------------------------------------
  // Search cache

  /** The uncached answer: `find_exact` or `search` over all stored tracks. */
  function Direct(ext: Collaborators, tracks: map<string, Track>, q: Query, exact: bool): SearchResult
  {
    if exact then ext.findExact(tracks, q) else ext.searchAll(tracks, q)
  }

  /** `search` over a given cache: the cached entry, or the uncached answer on a miss. */
  function CachedSearch(ext: Collaborators, tracks: map<string, Track>,
                        cache: map<SearchKey, SearchResult>, q: Query, exact: bool): SearchResult
  {
    if SearchKey(q, exact) in cache then cache[SearchKey(q, exact)] else Direct(ext, tracks, q, exact)
  }

  /** The keys `_fill_search_cache` writes for each query of `qs`. */
  function KeysOf(qs: set<Query>): (ks: set<SearchKey>)
    ensures forall q, e :: q in qs ==> SearchKey(q, e) in ks
    ensures forall k :: k in ks ==> k.query in qs
  {
    set q, e: bool | q in qs :: SearchKey(q, e)
  }

  /** The search cache after every query of `qs` has been refreshed. */
  function Refresh(ext: Collaborators, tracks: map<string, Track>,
                   cache: map<SearchKey, SearchResult>, qs: set<Query>): (r: map<SearchKey, SearchResult>)
  {
    map k | k in cache.Keys + KeysOf(qs) ::
      if k.query in qs then Direct(ext, tracks, k.query, k.exact) else cache[k]
  }

  /** Refreshing no query changes nothing. */
  lemma RefreshNone(ext: Collaborators, tracks: map<string, Track>, cache: map<SearchKey, SearchResult>)
    ensures Refresh(ext, tracks, cache, {}) == cache
  {
    assert KeysOf({}) == {};
  }

  /** A block that does not run leaves both caches as they were. */
  lemma NothingRefreshed(ext: Collaborators, tracks: map<string, Track>,
                         cache: map<SearchKey, SearchResult>, keys: set<MpdKey>)
    ensures Refresh(ext, tracks, cache, {}) == cache && keys + KeysOfCalls([]) == keys
  {
    RefreshNone(ext, tracks, cache);
  }

  /** Refreshing `a` and then `b` is refreshing both. */
  lemma RefreshTwice(ext: Collaborators, tracks: map<string, Track>,
                     cache: map<SearchKey, SearchResult>, a: set<Query>, b: set<Query>)
    ensures Refresh(ext, tracks, Refresh(ext, tracks, cache, a), b) == Refresh(ext, tracks, cache, a + b)
  {
    var m := Refresh(ext, tracks, cache, a);
    var l, r := Refresh(ext, tracks, m, b), Refresh(ext, tracks, cache, a + b);
    forall k | k in l ensures k in r && l[k] == r[k] {
      RefreshAt(ext, tracks, m, b, k);
      RefreshAt(ext, tracks, cache, a, k);
      RefreshAt(ext, tracks, cache, a + b, k);
    }
    forall k | k in r ensures k in l {
      RefreshAt(ext, tracks, m, b, k);
      RefreshAt(ext, tracks, cache, a, k);
      RefreshAt(ext, tracks, cache, a + b, k);
    }
  }

  /** One key of a refreshed cache: present when it was or when its query was refreshed. */
  lemma RefreshAt(ext: Collaborators, tracks: map<string, Track>,
                  cache: map<SearchKey, SearchResult>, qs: set<Query>, k: SearchKey)
    ensures k in Refresh(ext, tracks, cache, qs) <==> k in cache || k.query in qs
    ensures k in Refresh(ext, tracks, cache, qs) ==>
      Refresh(ext, tracks, cache, qs)[k] == (if k.query in qs then Direct(ext, tracks, k.query, k.exact) else cache[k])
  {
  }

  /** Refreshing one query sets its exact and its inexact entry and nothing else. */
  lemma RefreshOne(ext: Collaborators, tracks: map<string, Track>,
                   cache: map<SearchKey, SearchResult>, q: Query)
    ensures Refresh(ext, tracks, cache, {q}) ==
      cache[SearchKey(q, true) := Direct(ext, tracks, q, true)][SearchKey(q, false) := Direct(ext, tracks, q, false)]
  {
    var kt, kf := SearchKey(q, true), SearchKey(q, false);
    var l := Refresh(ext, tracks, cache, {q});
    var r := cache[kt := Direct(ext, tracks, q, true)][kf := Direct(ext, tracks, q, false)];
    forall k | k in l ensures k in r && l[k] == r[k] {
      if k.query == q {
        assert k == SearchKey(q, k.exact);
      }
    }
    forall k | k in r ensures k in l {
    }
  }

  /** A refreshed query is served with the uncached answer, under both exactness flags. */
  lemma RefreshedServesDirect(ext: Collaborators, tracks: map<string, Track>,
                              cache: map<SearchKey, SearchResult>, qs: set<Query>, q: Query, exact: bool)
    requires q in qs
    ensures CachedSearch(ext, tracks, Refresh(ext, tracks, cache, qs), q, exact) == Direct(ext, tracks, q, exact)
  {
  }

  // ---------------------------------------------------------------------
  // MPD answer cache

  /**
   * `find_exact` of the fake context of `_fill_mpd_cache`: a one-element
   * list holding this library's exact `search` of the query.
   */
  function FakeFindExact(ext: Collaborators, tracks: map<string, Track>,
                         cache: map<SearchKey, SearchResult>): FindExactFn
  {
    q => [CachedSearch(ext, tracks, cache, q, true)]
  }

  /**
   * A handler run by `_fill_mpd_cache` sees, for a query whose search was
   * refreshed, exactly one result: the uncached exact search.
   */
  lemma FakeContextSeesRefreshed(ext: Collaborators, tracks: map<string, Track>,
                                 cache: map<SearchKey, SearchResult>, qs: set<Query>, q: Query)
    requires q in qs
    ensures FakeFindExact(ext, tracks, Refresh(ext, tracks, cache, qs))(q) == [ext.findExact(tracks, q)]
  {
    RefreshedServesDirect(ext, tracks, cache, qs, q, true);
  }

  /** The wrapped handler `func`: the cached answer, else the original handler. */
  function WrappedCall(ext: Collaborators, mpd: map<MpdKey, Answer>,
                       cmd: Command, find: FindExactFn, args: seq<string>): Answer
  {
    var key := CacheKey(cmd, args);
    if key in mpd then mpd[key] else ext.handler(cmd, find, args)
  }

  /**
   * Population and lookup agree: after `_fill_mpd_cache(cmd, args)` stored
   * `v`, the wrapped handler answers `v` to the same command with any
   * context and any arguments that differ only in the case of field names.
   */
  lemma FilledKeyHits(ext: Collaborators, mpd: map<MpdKey, Answer>, cmd: Command, args: seq<string>,
                      v: Answer, find: FindExactFn, args': seq<string>)
    requires |args'| == |args| && forall i :: 0 <= i < |args| ==> SameToken(args[i], args'[i])
    ensures WrappedCall(ext, mpd[CacheKey(cmd, args) := v], cmd, find, args') == v
  {
    CacheKeyEq(cmd, args, cmd, args');
  }

  /** The MPD cache after `_fill_mpd_cache` of each call in turn, every handler given `find`. */
  function Filled(ext: Collaborators, mpd: map<MpdKey, Answer>, find: FindExactFn, calls: seq<Call>): map<MpdKey, Answer>
    decreases |calls|
  {
    if calls == [] then mpd
    else
      var c := calls[0];
      Filled(ext, mpd[CacheKey(c.cmd, c.args) := ext.handler(c.cmd, find, c.args)], find, calls[1..])
  }

  /** Filling starts with the first call. */
  lemma FilledOne(ext: Collaborators, mpd: map<MpdKey, Answer>, find: FindExactFn, calls: seq<Call>)
    requires calls != []
    ensures Filled(ext, mpd, find, calls) ==
      Filled(ext, mpd[CacheKey(calls[0].cmd, calls[0].args) := ext.handler(calls[0].cmd, find, calls[0].args)], find, calls[1..])
  {
  }

  /** The cache holds the handler's answer to the call, given `find`, under the call's key. */
  predicate Answered(ext: Collaborators, mpd: map<MpdKey, Answer>, find: FindExactFn, c: Call)
  {
    CacheKey(c.cmd, c.args) in mpd && mpd[CacheKey(c.cmd, c.args)] == ext.handler(c.cmd, find, c.args)
  }

  /** `m1` still holds every entry of `m0` whose key is not among those `written`. */
  ghost predicate KeepsOthers(m0: map<MpdKey, Answer>, m1: map<MpdKey, Answer>, written: set<MpdKey>)
  {
    forall k :: k in m0 && k !in written ==> k in m1 && m1[k] == m0[k]
  }

  /** Filling adds exactly the calls' keys and keeps every other entry. */
  lemma {:induction false} FilledFrame(ext: Collaborators, mpd: map<MpdKey, Answer>, find: FindExactFn, calls: seq<Call>)
    ensures Filled(ext, mpd, find, calls).Keys == mpd.Keys + KeysOfCalls(calls)
    ensures KeepsOthers(mpd, Filled(ext, mpd, find, calls), KeysOfCalls(calls))
    decreases |calls|
  {
    if calls != [] {
      var c := calls[0];
      var m := mpd[CacheKey(c.cmd, c.args) := ext.handler(c.cmd, find, c.args)];
      FilledFrame(ext, m, find, calls[1..]);
      assert calls == [c] + calls[1..];
      KeysOfCallsAppend([c], calls[1..]);
      assert KeysOfCalls([c]) == {CacheKey(c.cmd, c.args)};
    }
  }

  /** When the calls write different keys, each call's key holds that call's answer. */
  lemma {:induction false} FilledAnswers(ext: Collaborators, mpd: map<MpdKey, Answer>, find: FindExactFn, calls: seq<Call>)
    requires DistinctKeys(calls)
    ensures forall c :: c in calls ==> Answered(ext, Filled(ext, mpd, find, calls), find, c)
    decreases |calls|
  {
    if calls != [] {
      var c0, rest := calls[0], calls[1..];
      var k0 := CacheKey(c0.cmd, c0.args);
      var m := mpd[k0 := ext.handler(c0.cmd, find, c0.args)];
      assert DistinctKeys(rest) by {
        forall i, j | 0 <= i < j < |rest|
          ensures CacheKey(rest[i].cmd, rest[i].args) != CacheKey(rest[j].cmd, rest[j].args)
        {
          assert rest[i] == calls[i + 1] && rest[j] == calls[j + 1];
        }
      }
      FilledAnswers(ext, m, find, rest);
      FilledFrame(ext, m, find, rest);
      assert k0 !in KeysOfCalls(rest) by {
        forall c | c in rest ensures CacheKey(c.cmd, c.args) != k0 {
          var j :| 0 <= j < |rest| && rest[j] == c;
          assert calls[j + 1] == c;
        }
      }
      assert calls == [c0] + rest;
    }
  }

  /** Filling by calls with different keys: exactly their keys are added, each with its answer. */
  lemma FilledFacts(ext: Collaborators, mpd: map<MpdKey, Answer>, find: FindExactFn, calls: seq<Call>)
    requires DistinctKeys(calls)
    ensures Filled(ext, mpd, find, calls).Keys == mpd.Keys + KeysOfCalls(calls)
    ensures KeepsOthers(mpd, Filled(ext, mpd, find, calls), KeysOfCalls(calls))
    ensures forall c :: c in calls ==> Answered(ext, Filled(ext, mpd, find, calls), find, c)
  {
    FilledFrame(ext, mpd, find, calls);
    FilledAnswers(ext, mpd, find, calls);
  }

  /** The artist block's commands, stored one after the other. */
  lemma ArtistCallsFilled(ext: Collaborators, mpd: map<MpdKey, Answer>, find: FindExactFn, a: string)
    ensures Filled(ext, mpd, find, ArtistCalls(a)) ==
      mpd[CacheKey(List, ["album", "artist", a]) := ext.handler(List, find, ["album", "artist", a])]
         [CacheKey(List, ["album", "albumartist", a]) := ext.handler(List, find, ["album", "albumartist", a])]
         [CacheKey(Find, ["artist", a]) := ext.handler(Find, find, ["artist", a])]
         [CacheKey(Find, ["albumartist", a]) := ext.handler(Find, find, ["albumartist", a])]
         [CacheKey(List, ["album", a]) := ext.handler(List, find, ["album", a])]
  {
    var cs := ArtistCalls(a);
    var m1 := mpd[CacheKey(List, ["album", "artist", a]) := ext.handler(List, find, ["album", "artist", a])];
    var m2 := m1[CacheKey(List, ["album", "albumartist", a]) := ext.handler(List, find, ["album", "albumartist", a])];
    var m3 := m2[CacheKey(Find, ["artist", a]) := ext.handler(Find, find, ["artist", a])];
    var m4 := m3[CacheKey(Find, ["albumartist", a]) := ext.handler(Find, find, ["albumartist", a])];
    FilledOne(ext, mpd, find, cs);
    FilledOne(ext, m1, find, cs[1..]);
    FilledOne(ext, m2, find, cs[2..]);
    FilledOne(ext, m3, find, cs[3..]);
    FilledOne(ext, m4, find, cs[4..]);
    assert |cs| == 5;
  }

  /** The album block's commands, stored one after the other. */
  lemma AlbumCallsFilled(ext: Collaborators, mpd: map<MpdKey, Answer>, find: FindExactFn, al: string)
    ensures Filled(ext, mpd, find, AlbumCalls(al)) ==
      mpd[CacheKey(List, ["album", al]) := ext.handler(List, find, ["album", al])]
         [CacheKey(Find, ["album", al]) := ext.handler(Find, find, ["album", al])]
  {
    var cs := AlbumCalls(al);
    var m1 := mpd[CacheKey(List, ["album", al]) := ext.handler(List, find, ["album", al])];
    FilledOne(ext, mpd, find, cs);
    FilledOne(ext, m1, find, cs[1..]);
    assert |cs| == 2;
  }

  /** The nested block's commands, stored one after the other. */
  lemma PairCallsFilled(ext: Collaborators, mpd: map<MpdKey, Answer>, find: FindExactFn, a: string, al: string)
    ensures Filled(ext, mpd, find, PairCalls(a, al)) ==
      mpd[CacheKey(Find, ["albumartist", a, "album", al]) := ext.handler(Find, find, ["albumartist", a, "album", al])]
         [CacheKey(Find, ["album", al, "albumartist", a]) := ext.handler(Find, find, ["album", al, "albumartist", a])]
         [CacheKey(Find, ["artist", a, "album", al]) := ext.handler(Find, find, ["artist", a, "album", al])]
         [CacheKey(Count, ["albumartist", a, "album", al]) := ext.handler(Count, find, ["albumartist", a, "album", al])]
         [CacheKey(Count, ["album", al, "albumartist", a]) := ext.handler(Count, find, ["album", al, "albumartist", a])]
         [CacheKey(List, ["albumartist", "artist", a, "album", al]) := ext.handler(List, find, ["albumartist", "artist", a, "album", al])]
         [CacheKey(Count, ["artist", a, "album", al]) := ext.handler(Count, find, ["artist", a, "album", al])]
         [CacheKey(Find, ["albumartist", a, "album", al, "track", "1"]) := ext.handler(Find, find, ["albumartist", a, "album", al, "track", "1"])]
         [CacheKey(Find, ["albumartist", a, "album", al, "track", "01"]) := ext.handler(Find, find, ["albumartist", a, "album", al, "track", "01"])]
  {
    var cs := PairCalls(a, al);
    FilledNine(ext, mpd, find, cs[0], cs[1], cs[2], cs[3], cs[4], cs[5], cs[6], cs[7], cs[8]);
    assert cs == [cs[0], cs[1], cs[2], cs[3], cs[4], cs[5], cs[6], cs[7], cs[8]];
  }

  /** Nine calls, stored one after the other. */
  lemma FilledNine(ext: Collaborators, mpd: map<MpdKey, Answer>, find: FindExactFn,
                   c1: Call, c2: Call, c3: Call, c4: Call, c5: Call, c6: Call, c7: Call, c8: Call, c9: Call)
    ensures Filled(ext, mpd, find, [c1, c2, c3, c4, c5, c6, c7, c8, c9]) ==
      mpd[CacheKey(c1.cmd, c1.args) := ext.handler(c1.cmd, find, c1.args)]
         [CacheKey(c2.cmd, c2.args) := ext.handler(c2.cmd, find, c2.args)]
         [CacheKey(c3.cmd, c3.args) := ext.handler(c3.cmd, find, c3.args)]
         [CacheKey(c4.cmd, c4.args) := ext.handler(c4.cmd, find, c4.args)]
         [CacheKey(c5.cmd, c5.args) := ext.handler(c5.cmd, find, c5.args)]
         [CacheKey(c6.cmd, c6.args) := ext.handler(c6.cmd, find, c6.args)]
         [CacheKey(c7.cmd, c7.args) := ext.handler(c7.cmd, find, c7.args)]
         [CacheKey(c8.cmd, c8.args) := ext.handler(c8.cmd, find, c8.args)]
         [CacheKey(c9.cmd, c9.args) := ext.handler(c9.cmd, find, c9.args)]
  {
    var cs := [c1, c2, c3, c4, c5, c6, c7, c8, c9];
    var m1 := mpd[CacheKey(c1.cmd, c1.args) := ext.handler(c1.cmd, find, c1.args)];
    var m2 := m1[CacheKey(c2.cmd, c2.args) := ext.handler(c2.cmd, find, c2.args)];
    var m3 := m2[CacheKey(c3.cmd, c3.args) := ext.handler(c3.cmd, find, c3.args)];
    var m4 := m3[CacheKey(c4.cmd, c4.args) := ext.handler(c4.cmd, find, c4.args)];
    var m5 := m4[CacheKey(c5.cmd, c5.args) := ext.handler(c5.cmd, find, c5.args)];
    var m6 := m5[CacheKey(c6.cmd, c6.args) := ext.handler(c6.cmd, find, c6.args)];
    var m7 := m6[CacheKey(c7.cmd, c7.args) := ext.handler(c7.cmd, find, c7.args)];
    var m8 := m7[CacheKey(c8.cmd, c8.args) := ext.handler(c8.cmd, find, c8.args)];
    FilledOne(ext, mpd, find, cs[0..]);
    FilledOne(ext, m1, find, cs[1..]);
    FilledOne(ext, m2, find, cs[2..]);
    FilledOne(ext, m3, find, cs[3..]);
    FilledOne(ext, m4, find, cs[4..]);
    FilledOne(ext, m5, find, cs[5..]);
    FilledOne(ext, m6, find, cs[6..]);
    FilledOne(ext, m7, find, cs[7..]);
    FilledOne(ext, m8, find, cs[8..]);
    assert cs[9..] == [];
  }

  /** What two steps keep, the two together keep. */
  lemma KeepsOthersTrans(m0: map<MpdKey, Answer>, m1: map<MpdKey, Answer>, m2: map<MpdKey, Answer>,
                         w1: set<MpdKey>, w2: set<MpdKey>)
    requires KeepsOthers(m0, m1, w1) && KeepsOthers(m1, m2, w2)
    ensures KeepsOthers(m0, m2, w1 + w2)
  {
  }

  /**
   * The MPD cache after one pair of `flush`'s loop. The artist block's
   * commands run over the search cache as it was, the album block's after
   * the artist searches were refreshed, and the nested block's after the
   * album search was refreshed too.
   */
  ghost function PairFilled(ext: Collaborators, tracks: map<string, Track>, sc: map<SearchKey, SearchResult>,
                            mpd: map<MpdKey, Answer>, artist: Option<string>, album: Option<string>): map<MpdKey, Answer>
  {
    var sa := if Truthy(artist) then Refresh(ext, tracks, sc, ArtistQueries(artist.value)) else sc;
    var sb := if Truthy(album) then Refresh(ext, tracks, sa, AlbumQueries(album.value)) else sa;
    var ma := if Truthy(artist) then Filled(ext, mpd, FakeFindExact(ext, tracks, sc), ArtistCalls(artist.value)) else mpd;
    var mb := if Truthy(album) then Filled(ext, ma, FakeFindExact(ext, tracks, sa), AlbumCalls(album.value)) else ma;
    if Truthy(artist) && Truthy(album) then Filled(ext, mb, FakeFindExact(ext, tracks, sb), PairCalls(artist.value, album.value))
    else mb
  }

  /**
   * A command whose key a step did not write is answered as before: from
   * the cache when it had an entry, otherwise by the original handler.
   */
  lemma UnwrittenCallAnswers(ext: Collaborators, m0: map<MpdKey, Answer>, m1: map<MpdKey, Answer>, written: set<MpdKey>,
                             cmd: Command, find: FindExactFn, args: seq<string>)
    requires m1.Keys == m0.Keys + written && KeepsOthers(m0, m1, written)
    requires CacheKey(cmd, args) !in written
    ensures CacheKey(cmd, args) in m0 ==> WrappedCall(ext, m1, cmd, find, args) == m0[CacheKey(cmd, args)]
    ensures CacheKey(cmd, args) !in m0 ==> WrappedCall(ext, m1, cmd, find, args) == ext.handler(cmd, find, args)
  {
  }

  // ---------------------------------------------------------------------
  // Browse tree

  /** The segments of a track's path: its directories, then its file name. */
  function PathParts(ext: Collaborators, trackUri: string): (parts: seq<string>)
    ensures ValidSegments(parts)
  {
    Split(ext.trackPath(trackUri))
  }

  /** The reference of a track in its directory, named after its file. */
  function TrackRefOf(trackUri: string, parts: seq<string>): (r: Ref)
    requires |parts| > 0
    ensures r.TrackRef? && r.uri == TrackUri(trackUri) && r.name == parts[|parts| - 1]
  {
    TrackRef(TrackUri(trackUri), parts[|parts| - 1])
  }

  /** The track is listed in the directory of its path (the root when it has none). */
  ghost predicate Placed(b: Tree, trackUri: string, parts: seq<string>)
    requires |parts| > 0
  {
    && Root in b
    && ParentOf(parts) in b
    && TrackUri(trackUri) in b[ParentOf(parts)].refs
    && b[ParentOf(parts)].refs[TrackUri(trackUri)] == TrackRefOf(trackUri, parts)
  }

  /** `w` with the track put into its parent directory. */
  ghost function Placing(w: Tree, trackUri: string, parts: seq<string>): Tree
    requires |parts| > 0 && ParentOf(parts) in w && w[ParentOf(parts)].Valid()
  {
    var p := ParentOf(parts);
    w[p := w[p].Put(TrackUri(trackUri), TrackRefOf(trackUri, parts))]
  }

  /** Putting the track changes its parent directory only, and places the track. */
  lemma PlacingFrame(w: Tree, trackUri: string, parts: seq<string>)
    requires |parts| > 0 && WellFormed(w) && Root in w && ParentOf(parts) in w
    ensures var f := Placing(w, trackUri, parts);
      && Placed(f, trackUri, parts)
      && f.Keys == w.Keys
      && (forall u :: u in w && u != ParentOf(parts) ==> f[u] == w[u])
      && f[ParentOf(parts)] == w[ParentOf(parts)].Put(TrackUri(trackUri), TrackRefOf(trackUri, parts))
  {
  }

  /** Putting the track keeps every directory's children well formed. */
  lemma PlacingWellFormed(w: Tree, trackUri: string, parts: seq<string>)
    requires |parts| > 0 && WellFormed(w) && ParentOf(parts) in w
    ensures WellFormed(Placing(w, trackUri, parts))
  {
    var f := Placing(w, trackUri, parts);
    forall u | u in f ensures f[u].Valid() {
    }
  }

  /** Putting a track adds no directory, so every directory stays linked from its parent. */
  lemma PlacingClosed(w: Tree, trackUri: string, parts: seq<string>)
    requires |parts| > 0 && WellFormed(w) && Closed(w) && ParentOf(parts) in w
    ensures Closed(Placing(w, trackUri, parts))
  {
    var f := Placing(w, trackUri, parts);
    var p, k := ParentOf(parts), TrackUri(trackUri);
    forall u | Cached(f, u) ensures u.Root? || (u.Dir? && |u.path| > 0 && Linked(f, u.path)) {
      assert Cached(w, u);
      if u.Dir? {
        var par := ParentOf(u.path);
        assert Linked(w, u.path);
        if par == p {
          assert f[par].refs == w[par].refs[k := TrackRefOf(trackUri, parts)];
          assert f[par].refs[Dir(u.path)] == w[par].refs[Dir(u.path)];
        } else {
          assert f[par] == w[par];
        }
      }
    }
  }

  /** Putting the track keeps the cache well formed and closed, and places the track. */
  lemma PlacingSound(w: Tree, trackUri: string, parts: seq<string>)
    requires |parts| > 0 && WellFormed(w) && Closed(w) && Root in w && ParentOf(parts) in w
    ensures var f := Placing(w, trackUri, parts);
      && WellFormed(f) && Closed(f) && Placed(f, trackUri, parts)
      && f.Keys == w.Keys
      && (forall u :: u in w && u != ParentOf(parts) ==> f[u] == w[u])
      && f[ParentOf(parts)] == w[ParentOf(parts)].Put(TrackUri(trackUri), TrackRefOf(trackUri, parts))
  {
    PlacingFrame(w, trackUri, parts);
    PlacingWellFormed(w, trackUri, parts);
    PlacingClosed(w, trackUri, parts);
  }

  /** Placing a track that is already placed changes nothing. */
  lemma PlacingIdempotent(w: Tree, trackUri: string, parts: seq<string>)
    requires |parts| > 0 && WellFormed(w) && Placed(w, trackUri, parts)
    ensures Placing(w, trackUri, parts) == w
  {
    PutSame(w[ParentOf(parts)], TrackUri(trackUri));
  }

  /** The cache `_fill_browser_cache` starts its walk from: the root created if missing. */
  function WithRoot(b: Tree): (b0: Tree)
    ensures Root in b0 && b.Keys <= b0.Keys
    ensures forall u :: u in b ==> b0[u] == b[u]
  {
    if Root in b then b else b[Root := Empty]
  }

  /** Creating the root keeps the cache well formed and closed. */
  lemma WithRootSound(b: Tree)
    requires WellFormed(b) && Closed(b)
    ensures WellFormed(WithRoot(b)) && Closed(WithRoot(b))
  {
    var b0 := WithRoot(b);
    forall u | Cached(b0, u) && u != Root ensures u.Dir? && |u.path| > 0 && Linked(b0, u.path) {
      assert Cached(b, u);
    }
  }

  /** The directories of a track path: all segments but the last. */
  function DirsOf(parts: seq<string>): (dirs: seq<string>)
    requires |parts| > 0
    ensures |dirs| == |parts| - 1 && dirs == parts[..|parts| - 1]
  {
    parts[..|parts| - 1]
  }

  /** The track's parent directory is where a walk that creates nothing would stop. */
  lemma ParentIsDeepest(parts: seq<string>)
    requires |parts| > 0
    ensures ParentOf(parts) == StopAt(DirsOf(parts), |DirsOf(parts)|)
  {
    var dirs := DirsOf(parts);
    if |dirs| > 0 {
      assert dirs[..|dirs|] == dirs;
    }
  }

  /**
   * Where the walk over the prefixes of `dirs` no longer than `k` stops: the
   * longest such prefix whose directory is cached, or 0 for the root.
   */
  function StopIndex(b: Tree, dirs: seq<string>, k: nat): (i: nat)
    requires k <= |dirs|
    ensures i <= k
    ensures i > 0 ==> Dir(dirs[..i]) in b
    ensures forall m :: i < m <= k ==> Dir(dirs[..m]) !in b
  {
    if k == 0 then 0
    else if Dir(dirs[..k]) in b then k
    else StopIndex(b, dirs, k - 1)
  }

  /** One step of the walk up: the directory of prefix `i` created with the pending child. */
  lemma WalkStep(b0: Tree, dirs: seq<string>, i: nat, node: Children)
    requires 0 < i <= |dirs| && StopIndex(b0, dirs, |dirs|) <= i && Dir(dirs[..i]) !in b0
    requires node == if i == |dirs| then Empty else Empty.Put(Dir(dirs[..i + 1]), DirRefOf(dirs[..i + 1]))
    ensures Chain(b0, dirs, i - 1) == Chain(b0, dirs, i)[Dir(dirs[..i]) := node]
    ensures PendingChild(dirs, i - 1) == Some(DirectoryRef(Dir(dirs[..i]), dirs[i - 1]))
    ensures StopIndex(b0, dirs, |dirs|) <= i - 1
  {
  }

  /**
   * `_fill_browser_cache` as a function of the cache before it: create the
   * root if missing, walk up from the track's deepest directory to the
   * first cached one, then put the track into its parent directory.
   */
  ghost function InsertTrack(b: Tree, trackUri: string, parts: seq<string>): Tree
    requires |parts| > 0 && WellFormed(b) && Closed(b)
  {
    var dirs, b0 := DirsOf(parts), WithRoot(b);
    var i := StopIndex(b0, dirs, |dirs|);
    WalkedHoldsParent(b, parts);
    Placing(Walked(b0, dirs, i), trackUri, parts)
  }

  /** The walk of an insertion can start, and leaves the track's parent directory cached. */
  lemma WalkedHoldsParent(b: Tree, parts: seq<string>)
    requires |parts| > 0 && WellFormed(b) && Closed(b)
    ensures var dirs, b0 := DirsOf(parts), WithRoot(b);
      var i := StopIndex(b0, dirs, |dirs|);
      && WellFormed(b0) && StopAt(dirs, i) in b0
      && ParentOf(parts) in Walked(b0, dirs, i) && Walked(b0, dirs, i)[ParentOf(parts)].Valid()
  {
    var dirs, b0 := DirsOf(parts), WithRoot(b);
    var i := StopIndex(b0, dirs, |dirs|);
    WithRootSound(b);
    WalkFrame(b0, dirs, i);
    WalkCachesPrefixes(b0, dirs, i);
    ParentIsDeepest(parts);
  }

  /**
   * Inserting a track keeps the cache well formed and closed under
   * ancestors, places the track under its parent directory, caches every
   * ancestor directory of the track, and adds no key but the root and
   * those directories.
   */
  lemma InsertSound(b: Tree, trackUri: string, parts: seq<string>)
    requires |parts| > 0 && WellFormed(b) && Closed(b)
    ensures var f, dirs := InsertTrack(b, trackUri, parts), DirsOf(parts);
      && WellFormed(f) && Closed(f)
      && Placed(f, trackUri, parts)
      && (forall m :: 1 <= m <= |dirs| ==> Dir(dirs[..m]) in f)
      && b.Keys <= f.Keys
      && f.Keys - b.Keys <= {Root} + DirsBelow(dirs, 0)
  {
    var dirs, b0 := DirsOf(parts), WithRoot(b);
    var i := StopIndex(b0, dirs, |dirs|);
    WithRootSound(b);
    WalkFrame(b0, dirs, i);
    WalkClosed(b0, dirs, i);
    WalkCachesPrefixes(b0, dirs, i);
    ParentIsDeepest(parts);
    var w := Walked(b0, dirs, i);
    PlacingSound(w, trackUri, parts);
    assert DirsBelow(dirs, i) <= DirsBelow(dirs, 0);
  }

  /** When the track's parent directory is already cached, the walk stops there at once. */
  lemma ParentCachedStopsAtOnce(b: Tree, parts: seq<string>)
    requires |parts| > 0 && WellFormed(b)
    requires ParentOf(parts) in WithRoot(b)
    ensures StopIndex(WithRoot(b), DirsOf(parts), |DirsOf(parts)|) == |DirsOf(parts)|
    ensures Walked(WithRoot(b), DirsOf(parts), |DirsOf(parts)|) == WithRoot(b)
  {
    var dirs := DirsOf(parts);
    ParentIsDeepest(parts);
    assert Chain(WithRoot(b), dirs, |dirs|) == WithRoot(b);
  }

  /**
   * Each directory cached before an insertion gains at most one child: the
   * directory the walk stops at gains the first directory created under it,
   * the track's parent gains the track, and these are never the same one.
   */
  lemma InsertGrowsByOne(b: Tree, trackUri: string, parts: seq<string>)
    requires |parts| > 0 && WellFormed(b) && Closed(b)
    ensures var f := InsertTrack(b, trackUri, parts);
      forall u :: u in b ==> u in f && GrowsByOne(b[u], f[u])
  {
    var dirs, b0 := DirsOf(parts), WithRoot(b);
    var i := StopIndex(b0, dirs, |dirs|);
    WithRootSound(b);
    WalkFrame(b0, dirs, i);
    WalkClosed(b0, dirs, i);
    WalkCachesPrefixes(b0, dirs, i);
    ParentIsDeepest(parts);
    var w := Walked(b0, dirs, i);
    PlacingSound(w, trackUri, parts);
    var f := InsertTrack(b, trackUri, parts);
    var p, top := ParentOf(parts), StopAt(dirs, i);
    if p in b0 {
      ParentCachedStopsAtOnce(b, parts);
    }
    forall u | u in b ensures u in f && GrowsByOne(b[u], f[u]) {
      if u == p {
        assert f[u] == b[u].Put(TrackUri(trackUri), TrackRefOf(trackUri, parts));
      } else if u == top && i < |dirs| {
        assert f[u] == b[u].Put(Dir(dirs[..i + 1]), DirRefOf(dirs[..i + 1]));
      } else {
        assert f[u] == b[u];
      }
    }
  }

  /** Inserting a track that is already placed changes nothing. */
  lemma InsertIdempotent(b: Tree, trackUri: string, parts: seq<string>)
    requires |parts| > 0 && WellFormed(b) && Closed(b)
    requires Placed(b, trackUri, parts)
    ensures InsertTrack(b, trackUri, parts) == b
  {
    ParentCachedStopsAtOnce(b, parts);
    PlacingIdempotent(b, trackUri, parts);
  }

  /** Inserting the same track twice is inserting it once. */
  lemma InsertTwice(b: Tree, trackUri: string, parts: seq<string>)
    requires |parts| > 0 && WellFormed(b) && Closed(b)
    ensures var f := InsertTrack(b, trackUri, parts);
      WellFormed(f) && Closed(f) && InsertTrack(f, trackUri, parts) == f
  {
    InsertSound(b, trackUri, parts);
    InsertIdempotent(InsertTrack(b, trackUri, parts), trackUri, parts);
  }

  /** Inserting a track keeps every other placed track (and itself) where it was. */
  lemma InsertKeepsPlaced(b: Tree, trackUri: string, parts: seq<string>, other: string, otherParts: seq<string>)
    requires |parts| > 0 && |otherParts| > 0 && WellFormed(b) && Closed(b)
    requires Placed(b, other, otherParts)
    requires trackUri == other ==> parts == otherParts
    ensures Placed(InsertTrack(b, trackUri, parts), other, otherParts)
  {
    var dirs, b0 := DirsOf(parts), WithRoot(b);
    var i := StopIndex(b0, dirs, |dirs|);
    WithRootSound(b);
    assert StopAt(dirs, i) in b0;
    var w := Walked(b0, dirs, i);
    var q, k := ParentOf(otherParts), TrackUri(other);
    WalkKeepsOtherRefs(b0, dirs, i, q, k);
    WalkedHoldsParent(b, parts);
    WalkKeepsKeys(b0, dirs, i);
    var p := ParentOf(parts);
    var f := Placing(w, trackUri, parts);
    assert f == w[p := w[p].Put(TrackUri(trackUri), TrackRefOf(trackUri, parts))];
    assert Root in f && q in f && k in f[q].refs && f[q].refs[k] == b[q].refs[k] by {
      if q == p && trackUri != other {
        assert f[q].refs == w[q].refs[TrackUri(trackUri) := TrackRefOf(trackUri, parts)];
      }
    }
  }

  /** The trees of all the given tracks' paths have at least one segment. */
  ghost predicate Browsable(ext: Collaborators, uris: seq<string>)
  {
    forall u :: u in uris ==> |PathParts(ext, u)| > 0
  }

  /** A prefix of browsable tracks is browsable, and so is its last track. */
  lemma BrowsableSnoc(ext: Collaborators, uris: seq<string>, u: string)
    requires Browsable(ext, uris + [u])
    ensures Browsable(ext, uris) && |PathParts(ext, u)| > 0
  {
    assert forall v :: v in uris ==> v in uris + [u];
    assert u in uris + [u];
  }

  /** Inserting one more uri inserts its track into the tree built so far. */
  lemma InsertAllSnoc(ext: Collaborators, b: Tree, uris: seq<string>, u: string)
    requires WellFormed(b) && Closed(b) && Browsable(ext, uris + [u])
    ensures Browsable(ext, uris)
    ensures InsertAll(ext, b, uris + [u]) == InsertTrack(InsertAll(ext, b, uris), u, PathParts(ext, u))
  {
    BrowsableSnoc(ext, uris, u);
    var us := uris + [u];
    assert us[..|us| - 1] == uris;
    assert us[|us| - 1] == u;
  }

  /**
   * One more pending track: its pairs join those collected, and when its
   * album has an artist its track is inserted into the tree built so far.
   */
  lemma BrowsePendingStep(ext: Collaborators, b: Tree, pending: seq<Option<Track>>, j: nat)
    requires WellFormed(b) && Closed(b) && Flushable(pending) && Browsable(ext, BrowseUris(pending)) && j < |pending|
    ensures Flushable(pending[..j]) && Browsable(ext, BrowseUris(pending[..j]))
    ensures Flushable(pending[..j + 1]) && Browsable(ext, BrowseUris(pending[..j + 1]))
    ensures Workload(pending[..j + 1]) == Workload(pending[..j]) + TrackPairs(pending[j].value)
    ensures var t := pending[j].value;
      |t.album.value.artists| > 0 ==>
        && |PathParts(ext, t.uri)| > 0
        && InsertAll(ext, b, BrowseUris(pending[..j + 1]))
           == InsertTrack(InsertAll(ext, b, BrowseUris(pending[..j])), t.uri, PathParts(ext, t.uri))
    ensures |pending[j].value.album.value.artists| == 0 ==>
      BrowseUris(pending[..j + 1]) == BrowseUris(pending[..j])
  {
    PendingStep(pending, j);
    BrowsablePrefix(ext, pending, j);
    BrowsablePrefix(ext, pending, j + 1);
    var t := pending[j].value;
    if |t.album.value.artists| > 0 {
      InsertAllSnoc(ext, b, BrowseUris(pending[..j]), t.uri);
    }
  }

  /** Every track of a prefix of the pending list is a track of the whole list. */
  lemma BrowsablePrefix(ext: Collaborators, pending: seq<Option<Track>>, j: nat)
    requires Flushable(pending) && Browsable(ext, BrowseUris(pending)) && j <= |pending|
    ensures Flushable(pending[..j]) && Browsable(ext, BrowseUris(pending[..j]))
  {
    FlushablePrefix(pending, j);
    BrowseUrisMembers(pending[..j]);
    BrowseUrisMembers(pending);
    forall u | u in BrowseUris(pending[..j]) ensures u in BrowseUris(pending) {
      var i :| 0 <= i < j && |pending[..j][i].value.album.value.artists| > 0 && pending[..j][i].value.uri == u;
      assert pending[..j][i] == pending[i];
    }
  }

  /** The cache after inserting the given tracks one after the other. */
  ghost function InsertAll(ext: Collaborators, b: Tree, uris: seq<string>): (f: Tree)
    requires WellFormed(b) && Closed(b) && Browsable(ext, uris)
    ensures WellFormed(f) && Closed(f) && b.Keys <= f.Keys
    decreases |uris|
  {
    if uris == [] then b
    else
      var u := uris[|uris| - 1];
      var f := InsertAll(ext, b, uris[..|uris| - 1]);
      InsertShape(f, u, PathParts(ext, u));
      InsertTrack(f, u, PathParts(ext, u))
  }

  /** The inserted track is placed. */
  lemma InsertPlaces(b: Tree, trackUri: string, parts: seq<string>)
    requires |parts| > 0 && WellFormed(b) && Closed(b)
    ensures Placed(InsertTrack(b, trackUri, parts), trackUri, parts)
  {
    InsertSound(b, trackUri, parts);
  }

  /** The part of `InsertSound` that a sequence of insertions relies on. */
  lemma InsertShape(b: Tree, trackUri: string, parts: seq<string>)
    requires |parts| > 0 && WellFormed(b) && Closed(b)
    ensures var f := InsertTrack(b, trackUri, parts);
      WellFormed(f) && Closed(f) && b.Keys <= f.Keys
  {
    InsertSound(b, trackUri, parts);
  }

  /**
   * After inserting a list of tracks, every one of them is placed in the
   * directory of its path, and every track placed before still is.
   */
  lemma {:induction false} InsertAllPlaces(ext: Collaborators, b: Tree, uris: seq<string>)
    requires WellFormed(b) && Closed(b) && Browsable(ext, uris)
    ensures forall u :: u in uris ==> Placed(InsertAll(ext, b, uris), u, PathParts(ext, u))
    ensures forall v :: |PathParts(ext, v)| > 0 && Placed(b, v, PathParts(ext, v)) ==>
      Placed(InsertAll(ext, b, uris), v, PathParts(ext, v))
    decreases |uris|
  {
    if uris != [] {
      var u, init := uris[|uris| - 1], uris[..|uris| - 1];
      assert init + [u] == uris;
      InsertAllSnoc(ext, b, init, u);
      InsertAllPlaces(ext, b, init);
      var f, parts := InsertAll(ext, b, init), PathParts(ext, u);
      InsertPlaces(f, u, parts);
      forall v | v in uris || (|PathParts(ext, v)| > 0 && Placed(b, v, PathParts(ext, v)))
        ensures Placed(InsertAll(ext, b, uris), v, PathParts(ext, v))
      {
        if v != u {
          assert v in uris ==> v in init;
          InsertKeepsPlaced(f, u, parts, v, PathParts(ext, v));
        }
      }
    }
  }

  /**
   * `browse` over a given cache: the children of `uri` in the order they
   * were first put there, or nothing for a uri the cache does not hold.
   */
  function Listing(b: Tree, uri: Uri): (refs: seq<Ref>)
    requires WellFormed(b)
    ensures uri !in b ==> refs == []
    ensures uri in b ==> |refs| == |b[uri].order|
    ensures uri in b ==> forall k :: k in b[uri].refs ==> b[uri].refs[k] in refs
    ensures forall r :: r in refs ==> uri in b && exists k :: k in b[uri].refs && b[uri].refs[k] == r
  {
    if uri in b then
      var c := b[uri];
      assert forall k :: k in c.refs ==> exists i :: 0 <= i < |c.order| && c.order[i] == k;
      c.Values()
    else []
  }

  /** A placed track is listed when its directory is browsed. */
  lemma ListedWhenPlaced(b: Tree, trackUri: string, parts: seq<string>)
    requires |parts| > 0 && WellFormed(b) && Placed(b, trackUri, parts)
    ensures TrackRefOf(trackUri, parts) in Listing(b, ParentOf(parts))
  {
  }

  /** In a closed cache every cached directory is listed when its parent is browsed. */
  lemma ListedDirectory(b: Tree, p: seq<string>)
    requires WellFormed(b) && Closed(b) && Dir(p) in b && |p| > 0
    ensures DirRefOf(p) in Listing(b, ParentOf(p))
  {
    assert Cached(b, Dir(p));
  }

  // ---------------------------------------------------------------------
  // The library

  class ZodbLibrary {
    const ext: Collaborators

    var tracks: map<string, Track>
    var pending: seq<Option<Track>>
    var browseCache: Tree
    var searchCache: map<SearchKey, SearchResult>
    var mpdCache: map<MpdKey, Answer>

    ghost predicate Valid()
      reads this`tracks, this`browseCache
    {
      && (forall u :: u in tracks ==> tracks[u].uri == u)
      && TreeValid()
    }

    /** The browse cache is well formed and closed under ancestors. */
    ghost predicate TreeValid()
      reads this`browseCache
    {
      WellFormed(browseCache) && Closed(browseCache)
    }

    /** A library over an empty store, as `__init__` and `load` leave a new file. */
    constructor (ext: Collaborators)
      ensures Valid() && this.ext == ext
      ensures tracks == map[] && pending == [] && browseCache == map[]
      ensures searchCache == map[] && mpdCache == map[]
    {
      this.ext := ext;
      tracks := map[];
      pending := [];
      browseCache := map[];
      searchCache := map[];
      mpdCache := map[];
    }

    /** `lookup`: the stored track of that uri, or `None`. */
    function Lookup(uri: string): (r: Option<Track>)
      reads this
      ensures r.Some? <==> uri in tracks
      ensures r.Some? ==> r.value == tracks[uri]
      ensures Valid() && r.Some? ==> r.value.uri == uri
    {
      if uri in tracks then Some(tracks[uri]) else None
    }

    /** `browse`: the children of a directory in the order they were added, or none. */
    function Browse(uri: Uri): (refs: seq<Ref>)
      reads this
      requires Valid()
      ensures uri !in browseCache ==> refs == []
      ensures forall r :: r in refs <==> uri in browseCache && r in browseCache[uri].refs.Values
    {
      Listing(browseCache, uri)
    }

    /** `add`: store the track under its uri and remember it for the next flush. */
    method Add(track: Track)
      requires Valid()
      modifies this`tracks, this`pending
      ensures Valid()
      ensures tracks == old(tracks)[track.uri := track]
      ensures pending == old(pending) + [Some(track)]
      ensures Lookup(track.uri) == Some(track)
    {
      pending := pending + [Some(track)];
      tracks := tracks[track.uri := track];
    }

    /**
     * `remove`: drop the track of that uri, and remember what was dropped
     * (`None` when there was no such track) for the next flush.
     */
    method Remove(uri: string)
      requires Valid()
      modifies this`tracks, this`pending
      ensures Valid()
      ensures tracks == old(tracks) - {uri}
      ensures pending == old(pending) + [old(Lookup(uri))]
      ensures Lookup(uri) == None
    {
      var track: Option<Track> := None;
      if uri in tracks {
        track := Some(tracks[uri]);
        tracks := tracks - {uri};
      }
      pending := pending + [track];
    }

    /**
     * `search`: only the first page of 100 over all uris is supported; the
     * cached result for the query and exactness when there is one, else
     * `find_exact` or `search` over every stored track.
     */
    method Search(query: Query, limit: int, offset: int, uris: Option<seq<string>>, exact: bool)
      returns (r: SearchResult)
      requires uris == None || uris == Some([])
      requires offset == 0 && limit == 100
      ensures r == CachedSearch(ext, tracks, searchCache, query, exact)
    {
      var key := SearchKey(query, exact);
      if key in searchCache {
        return searchCache[key];
      }
      if exact {
        r := ext.findExact(tracks, query);
      } else {
        r := ext.searchAll(tracks, query);
      }
    }

    /**
     * `_fill_search_cache`: for exact and then inexact matching, drop the
     * cached entry and store a fresh search, which therefore misses the
     * cache. Only the two entries of the query change.
     */
    method FillSearchCache(query: Query)
      modifies this`searchCache
      ensures searchCache == Refresh(ext, tracks, old(searchCache), {query})
    {
      var flags := [true, false];
      for j := 0 to |flags|
        invariant j == 0 ==> searchCache == old(searchCache)
        invariant j == 1 ==> searchCache == old(searchCache)[SearchKey(query, true) := Direct(ext, tracks, query, true)]
        invariant j == 2 ==> searchCache == old(searchCache)[SearchKey(query, true) := Direct(ext, tracks, query, true)]
                                                            [SearchKey(query, false) := Direct(ext, tracks, query, false)]
      {
        var exact := flags[j];
        var key := SearchKey(query, exact);
        if key in searchCache {
          searchCache := searchCache - {key};
        }
        var val := Search(query, 100, 0, None, exact);
        searchCache := searchCache[key := val];
      }
      RefreshOne(ext, tracks, old(searchCache), query);
    }

    /**
     * `_fill_mpd_cache`: run the original handler with a context whose
     * exact search is this library's, and store its answer under the
     * normalised key of the command.
     */
    method FillMpdCache(cmd: Command, args: seq<string>)
      modifies this`mpdCache
      ensures mpdCache == old(mpdCache)[CacheKey(cmd, args) := ext.handler(cmd, FakeFindExact(ext, tracks, searchCache), args)]
      ensures mpdCache.Keys == old(mpdCache).Keys + {CacheKey(cmd, args)}
    {
      var context := FakeFindExact(ext, tracks, searchCache);
      var key := CacheKey(cmd, args);
      mpdCache := mpdCache[key := ext.handler(cmd, context, args)];
    }

    /**
     * `_fill_browser_cache`: put the track under the directory of its path,
     * creating the missing directories from the deepest upwards and stopping
     * at the first one that exists.
     */
    method FillBrowserCache(trackUri: string)
      requires TreeValid()
      requires |PathParts(ext, trackUri)| > 0
      modifies this`browseCache
      ensures TreeValid()
      ensures browseCache == InsertTrack(old(browseCache), trackUri, PathParts(ext, trackUri))
    {
      var parts := Split(ext.trackPath(trackUri));
      ghost var b := browseCache;
      if Root !in browseCache {
        browseCache := browseCache[Root := Empty];
      }
      assert browseCache == WithRoot(b);
      WithRootSound(b);
      var dirs := parts[..|parts| - 1];
      var trackRef := TrackRef(TrackUri(trackUri), parts[|parts| - 1]);
      var parent, i := WalkUp(dirs);
      ParentIsDeepest(parts);
      WalkedHoldsParent(b, parts);
      ghost var w := browseCache;
      browseCache := browseCache[parent := browseCache[parent].Put(trackRef.uri, trackRef)];
      assert browseCache == Placing(w, trackUri, parts);
      InsertShape(b, trackUri, parts);
    }

    /**
     * The loop of `_fill_browser_cache` and its `else` branch: walk up from
     * the deepest directory of `dirs`, create each missing directory with
     * the previously created one as its child, and hang the last one created
     * under the first directory that exists (or under the root). Returns the
     * directory the track belongs in and where the walk stopped.
     */
    method WalkUp(dirs: seq<string>) returns (parent: Uri, i: nat)
      requires Root in browseCache && WellFormed(browseCache)
      modifies this`browseCache
      ensures parent == StopAt(dirs, |dirs|)
      ensures i == StopIndex(old(browseCache), dirs, |dirs|)
      ensures browseCache == Walked(old(browseCache), dirs, i)
    {
      ghost var b0 := browseCache;
      ghost var k := StopIndex(b0, dirs, |dirs|);
      var found := false;
      var child: Option<Ref> := None;
      var parentUri: Option<Uri> := None;
      i := |dirs|;
      while i > 0
        invariant 0 <= i <= |dirs|
        invariant parentUri == if i == |dirs| then None else Some(Dir(dirs))
        invariant child == PendingChild(dirs, i)
        invariant k <= i
        invariant browseCache == Chain(b0, dirs, i)
      {
        var d := Dir(dirs[..i]);
        if parentUri.None? {
          assert dirs[..i] == dirs;
          parentUri := Some(d);
        }
        ChainAt(b0, dirs, i);
        if d in browseCache {
          WalkedIs(b0, dirs, i);
          if child.Some? {
            browseCache := browseCache[d := browseCache[d].Put(child.value.uri, child.value)];
          }
          assert browseCache == Walked(b0, dirs, i);
          found := true;
          break;
        }
        var node := Empty;
        if child.Some? {
          node := node.Put(child.value.uri, child.value);
        }
        WalkStep(b0, dirs, i, node);
        browseCache := browseCache[d := node];
        child := Some(DirectoryRef(d, dirs[i - 1]));
        i := i - 1;
      }
      if !found {
        WalkedIs(b0, dirs, i);
        if child.Some? {
          browseCache := browseCache[Root := browseCache[Root].Put(child.value.uri, child.value)];
        }
        assert browseCache == Walked(b0, dirs, i);
        if parentUri.None? {
          parentUri := Some(Root);
        }
      }
      parent := parentUri.value;
      if |dirs| > 0 {
        assert dirs[..|dirs|] == dirs;
      }
    }

    /**
     * `flush`: put every pending track with an album artist into the browse
     * tree (once per artist), refresh the MPD answers and searches of every
     * collected (artist, album) pair, empty the pending list, then refresh
     * the search for the empty query and the three `list` answers.
     */
    method Flush() returns (ok: bool)
      requires Valid() && Flushable(pending) && Browsable(ext, BrowseUris(pending))
      modifies this`pending, this`browseCache, this`searchCache, this`mpdCache
      ensures Valid() && ok && pending == []
      ensures browseCache == InsertAll(ext, old(browseCache), BrowseUris(old(pending)))
      ensures searchCache == Refresh(ext, tracks, Refresh(ext, tracks, old(searchCache), RefreshedQueries(Workload(old(pending)))), {Fields(map[])})
      ensures mpdCache.Keys == old(mpdCache).Keys + RefreshedMpdKeys(Workload(old(pending))) + ListKeys
      ensures KeepsOthers(old(mpdCache), mpdCache, RefreshedMpdKeys(Workload(old(pending))) + ListKeys)
      ensures forall f :: f in ListFields ==>
        CacheKey(List, [f]) in mpdCache && mpdCache[CacheKey(List, [f])] == ext.handler(List, FakeFindExact(ext, tracks, searchCache), [f])
    {
      ghost var m0, ps := mpdCache, pending;
      var artistAlbums := BrowsePending();
      ghost var b1 := browseCache;
      assert b1 == InsertAll(ext, old(browseCache), BrowseUris(ps));
      RefreshPairs(artistAlbums);
      ghost var m1 := mpdCache;
      pending := [];
      RefreshIndexes();
      KeepsOthersTrans(m0, m1, mpdCache, RefreshedMpdKeys(artistAlbums), ListKeys);
      assert browseCache == b1 && ps == old(pending);
      ok := true;
    }

    /**
     * The end of `flush`: the search for the empty query, then the `list`
     * answers for artists, albums and album artists.
     */
    method RefreshIndexes()
      modifies this`searchCache, this`mpdCache
      ensures searchCache == Refresh(ext, tracks, old(searchCache), {Fields(map[])})
      ensures mpdCache.Keys == old(mpdCache).Keys + ListKeys
      ensures KeepsOthers(old(mpdCache), mpdCache, ListKeys)
      ensures forall f :: f in ListFields ==>
        CacheKey(List, [f]) in mpdCache && mpdCache[CacheKey(List, [f])] == ext.handler(List, FakeFindExact(ext, tracks, searchCache), [f])
    {
      FillSearchCache(Fields(map[]));
      RefreshLists();
    }

    /** The `list` answers for artists, albums and album artists. */
    method RefreshLists()
      modifies this`mpdCache
      ensures mpdCache.Keys == old(mpdCache).Keys + ListKeys
      ensures KeepsOthers(old(mpdCache), mpdCache, ListKeys)
      ensures forall f :: f in ListFields ==>
        CacheKey(List, [f]) in mpdCache && mpdCache[CacheKey(List, [f])] == ext.handler(List, FakeFindExact(ext, tracks, searchCache), [f])
    {
      FillMpdCache(List, ["artist"]);
      FillMpdCache(List, ["album"]);
      FillMpdCache(List, ["albumartist"]);
      ListKeysDistinct();
    }

    /**
     * `flush`'s loop over the pending tracks: each track is put into the
     * browse tree once per artist of its album, and every (artist, album)
     * pair is collected.
     */
    method BrowsePending() returns (artistAlbums: set<Pair>)
      requires TreeValid() && Flushable(pending) && Browsable(ext, BrowseUris(pending))
      modifies this`browseCache
      ensures TreeValid()
      ensures artistAlbums == Workload(pending)
      ensures browseCache == InsertAll(ext, old(browseCache), BrowseUris(pending))
    {
      var ps := pending;
      ghost var b := browseCache;
      artistAlbums := {};
      for j := 0 to |ps|
        invariant TreeValid()
        invariant Flushable(ps[..j]) && Browsable(ext, BrowseUris(ps[..j]))
        invariant artistAlbums == Workload(ps[..j])
        invariant browseCache == InsertAll(ext, b, BrowseUris(ps[..j]))
      {
        BrowsePendingStep(ext, b, ps, j);
        artistAlbums := BrowseTrack(ps[j].value, artistAlbums);
      }
      assert ps[..|ps|] == ps;
    }

    /**
     * The body of `flush`'s loop over the pending tracks: for each artist of
     * the track's album, put the track into the browse tree and collect the
     * (artist, album) pair. The first put inserts the track; the others
     * change nothing.
     */
    method BrowseTrack(track: Track, collected: set<Pair>) returns (artistAlbums: set<Pair>)
      requires TreeValid() && track.album.Some?
      requires |track.album.value.artists| > 0 ==> |PathParts(ext, track.uri)| > 0
      modifies this`browseCache
      ensures TreeValid()
      ensures artistAlbums == collected + TrackPairs(track)
      ensures |track.album.value.artists| == 0 ==> browseCache == old(browseCache)
      ensures |track.album.value.artists| > 0 ==>
        browseCache == InsertTrack(old(browseCache), track.uri, PathParts(ext, track.uri))
    {
      var artists := track.album.value.artists;
      artistAlbums := collected;
      for k := 0 to |artists|
        invariant TreeValid()
        invariant k == 0 ==> browseCache == old(browseCache)
        invariant k > 0 ==> browseCache == InsertTrack(old(browseCache), track.uri, PathParts(ext, track.uri))
        invariant artistAlbums == collected + ArtistPairs(artists[..k], track.album.value.name)
      {
        if k > 0 {
          InsertTwice(old(browseCache), track.uri, PathParts(ext, track.uri));
        }
        FillBrowserCache(track.uri);
        ArtistPairsStep(artists, track.album.value.name, k);
        artistAlbums := artistAlbums + {(artists[k].name, track.album.value.name)};
      }
      assert artists[..|artists|] == artists;
    }

    /** `flush`'s loop over the collected pairs, taken in any order. */
    method RefreshPairs(artistAlbums: set<Pair>)
      modifies this`searchCache, this`mpdCache
      ensures searchCache == Refresh(ext, tracks, old(searchCache), RefreshedQueries(artistAlbums))
      ensures mpdCache.Keys == old(mpdCache).Keys + RefreshedMpdKeys(artistAlbums)
      ensures KeepsOthers(old(mpdCache), mpdCache, RefreshedMpdKeys(artistAlbums))
    {
      var todo := artistAlbums;
      ghost var done: set<Pair> := {};
      ghost var s0, m0 := searchCache, mpdCache;
      RefreshedNone();
      RefreshNone(ext, tracks, s0);
      while todo != {}
        invariant todo + done == artistAlbums
        invariant searchCache == Refresh(ext, tracks, s0, RefreshedQueries(done))
        invariant mpdCache.Keys == m0.Keys + RefreshedMpdKeys(done)
        invariant KeepsOthers(m0, mpdCache, RefreshedMpdKeys(done))
        decreases |todo|
      {
        var pair :| pair in todo;
        RefreshOneMore(s0, m0, done, pair);
        Moved(todo, done, pair);
        todo, done := todo - {pair}, done + {pair};
      }
      assert done == artistAlbums;
    }

    /**
     * A turn of `flush`'s loop over the pairs: the pair's commands are
     * stored, and the keys written so far grow by the pair's keys.
     */
    method RefreshOneMore(ghost s0: map<SearchKey, SearchResult>, ghost m0: map<MpdKey, Answer>, ghost done: set<Pair>, pair: Pair)
      requires searchCache == Refresh(ext, tracks, s0, RefreshedQueries(done))
      requires mpdCache.Keys == m0.Keys + RefreshedMpdKeys(done)
      requires KeepsOthers(m0, mpdCache, RefreshedMpdKeys(done))
      modifies this`searchCache, this`mpdCache
      ensures searchCache == Refresh(ext, tracks, s0, RefreshedQueries(done + {pair}))
      ensures mpdCache == PairFilled(ext, tracks, old(searchCache), old(mpdCache), pair.0, pair.1)
      ensures mpdCache.Keys == m0.Keys + RefreshedMpdKeys(done + {pair})
      ensures KeepsOthers(m0, mpdCache, RefreshedMpdKeys(done + {pair}))
    {
      ghost var m := mpdCache;
      RefreshPair(pair.0, pair.1);
      RefreshedAddPair(done, pair, m0.Keys);
      RefreshedAddPair(done, pair, {});
      KeepsOthersTrans(m0, m, mpdCache, RefreshedMpdKeys(done), RefreshedMpdKeys({pair}));
      RefreshTwice(ext, tracks, s0, RefreshedQueries(done), RefreshedQueries({pair}));
    }

    /**
     * The body of `flush`'s loop over the collected pairs: refresh the MPD
     * answers and the searches by artist, then by album, then by both, each
     * only when the names involved are set.
     */
    method RefreshPair(artist: Option<string>, album: Option<string>)
      modifies this`searchCache, this`mpdCache
      ensures searchCache == Refresh(ext, tracks, old(searchCache), RefreshedQueries({(artist, album)}))
      ensures mpdCache == PairFilled(ext, tracks, old(searchCache), old(mpdCache), artist, album)
      ensures mpdCache.Keys == old(mpdCache).Keys + RefreshedMpdKeys({(artist, album)})
      ensures KeepsOthers(old(mpdCache), mpdCache, RefreshedMpdKeys({(artist, album)}))
    {
      ghost var qa := if Truthy(artist) then ArtistQueries(artist.value) else {};
      ghost var qb := if Truthy(album) then AlbumQueries(album.value) else {};
      ghost var qc := if Truthy(artist) && Truthy(album) then PairQueries(artist.value, album.value) else {};
      ghost var ka := KeysOfCalls(if Truthy(artist) then ArtistCalls(artist.value) else []);
      ghost var kb := KeysOfCalls(if Truthy(album) then AlbumCalls(album.value) else []);
      ghost var kc := KeysOfCalls(if Truthy(artist) && Truthy(album) then PairCalls(artist.value, album.value) else []);
      ghost var s0, m0 := searchCache, mpdCache;
      if Truthy(artist) {
        RefreshArtist(artist.value);
      } else {
        NothingRefreshed(ext, tracks, searchCache, mpdCache.Keys);
      }
      ghost var s1, m1 := searchCache, mpdCache;
      assert m1 == if Truthy(artist) then Filled(ext, m0, FakeFindExact(ext, tracks, s0), ArtistCalls(artist.value)) else m0;
      ghost var s2, m2 := searchCache, mpdCache;
      if Truthy(album) {
        RefreshAlbum(album.value);
        s2, m2 := searchCache, mpdCache;
        if Truthy(artist) {
          RefreshBoth(artist.value, album.value);
        } else {
          NothingRefreshed(ext, tracks, searchCache, mpdCache.Keys);
        }
      } else {
        NothingRefreshed(ext, tracks, searchCache, mpdCache.Keys);
      }
      assert m2 == if Truthy(album) then Filled(ext, m1, FakeFindExact(ext, tracks, s1), AlbumCalls(album.value)) else m1;
      assert mpdCache == if Truthy(artist) && Truthy(album) then Filled(ext, m2, FakeFindExact(ext, tracks, s2), PairCalls(artist.value, album.value)) else m2;
      assert searchCache == Refresh(ext, tracks, old(searchCache), qa + qb + qc) by {
        RefreshTwice(ext, tracks, old(searchCache), qa, qb);
        RefreshTwice(ext, tracks, old(searchCache), qa + qb, qc);
      }
      MpdCallsKeys(artist, album, old(mpdCache).Keys);
      RefreshedOnePair(artist, album, old(mpdCache).Keys);
      PairKeys(artist, album);
      KeepsOthersTrans(m0, m1, m2, ka, kb);
      KeepsOthersTrans(m0, m2, mpdCache, ka + kb, kc);
    }

    /** The `if artist:` block of the pair refresh: its commands run before its searches. */
    method RefreshArtist(a: string)
      modifies this`searchCache, this`mpdCache
      ensures searchCache == Refresh(ext, tracks, old(searchCache), ArtistQueries(a))
      ensures mpdCache == Filled(ext, old(mpdCache), FakeFindExact(ext, tracks, old(searchCache)), ArtistCalls(a))
      ensures mpdCache.Keys == old(mpdCache).Keys + KeysOfCalls(ArtistCalls(a))
      ensures KeepsOthers(old(mpdCache), mpdCache, KeysOfCalls(ArtistCalls(a)))
      ensures forall c :: c in ArtistCalls(a) ==> Answered(ext, mpdCache, FakeFindExact(ext, tracks, old(searchCache)), c)
    {
      RefreshArtistCommands(a);
      FillSearchCache(Only("albumartist", a));
      FillSearchCache(Only("artist", a));
      RefreshTwice(ext, tracks, old(searchCache), {Only("albumartist", a)}, {Only("artist", a)});
    }

    /** The MPD commands of the `if artist:` block. */
    method RefreshArtistCommands(a: string)
      modifies this`mpdCache
      ensures mpdCache == Filled(ext, old(mpdCache), FakeFindExact(ext, tracks, searchCache), ArtistCalls(a))
      ensures mpdCache.Keys == old(mpdCache).Keys + KeysOfCalls(ArtistCalls(a))
      ensures KeepsOthers(old(mpdCache), mpdCache, KeysOfCalls(ArtistCalls(a)))
      ensures forall c :: c in ArtistCalls(a) ==> Answered(ext, mpdCache, FakeFindExact(ext, tracks, searchCache), c)
    {
      FillMpdCache(List, ["album", "artist", a]);
      FillMpdCache(List, ["album", "albumartist", a]);
      FillMpdCache(Find, ["artist", a]);
      FillMpdCache(Find, ["albumartist", a]);
      FillMpdCache(List, ["album", a]); // the form the MPDroid client sends
      ArtistCallsFilled(ext, old(mpdCache), FakeFindExact(ext, tracks, searchCache), a);
      ArtistCallsDistinct(a);
      FilledFacts(ext, old(mpdCache), FakeFindExact(ext, tracks, searchCache), ArtistCalls(a));
    }

    /**
     * The `if album:` block of the pair refresh, before its nested `if
     * artist:`: its commands run before its search.
     */
    method RefreshAlbum(al: string)
      modifies this`searchCache, this`mpdCache
      ensures searchCache == Refresh(ext, tracks, old(searchCache), AlbumQueries(al))
      ensures mpdCache == Filled(ext, old(mpdCache), FakeFindExact(ext, tracks, old(searchCache)), AlbumCalls(al))
      ensures mpdCache.Keys == old(mpdCache).Keys + KeysOfCalls(AlbumCalls(al))
      ensures KeepsOthers(old(mpdCache), mpdCache, KeysOfCalls(AlbumCalls(al)))
      ensures forall c :: c in AlbumCalls(al) ==> Answered(ext, mpdCache, FakeFindExact(ext, tracks, old(searchCache)), c)
    {
      FillMpdCache(List, ["album", al]);
      FillMpdCache(Find, ["album", al]);
      AlbumCallsFilled(ext, old(mpdCache), FakeFindExact(ext, tracks, old(searchCache)), al);
      AlbumCallsDistinct(al);
      FilledFacts(ext, old(mpdCache), FakeFindExact(ext, tracks, old(searchCache)), AlbumCalls(al));
      FillSearchCache(Only("album", al));
    }

    /** The nested `if artist:` block of the pair refresh: its commands run before its searches. */
    method RefreshBoth(a: string, al: string)
      modifies this`searchCache, this`mpdCache
      ensures searchCache == Refresh(ext, tracks, old(searchCache), PairQueries(a, al))
      ensures mpdCache == Filled(ext, old(mpdCache), FakeFindExact(ext, tracks, old(searchCache)), PairCalls(a, al))
      ensures mpdCache.Keys == old(mpdCache).Keys + KeysOfCalls(PairCalls(a, al))
      ensures KeepsOthers(old(mpdCache), mpdCache, KeysOfCalls(PairCalls(a, al)))
      ensures forall c :: c in PairCalls(a, al) ==> Answered(ext, mpdCache, FakeFindExact(ext, tracks, old(searchCache)), c)
    {
      RefreshBothCommands(a, al);
      FillSearchCache(WithAlbum(al, "artist", a));
      FillSearchCache(WithAlbum(al, "albumartist", a));
      RefreshTwice(ext, tracks, old(searchCache), {WithAlbum(al, "artist", a)}, {WithAlbum(al, "albumartist", a)});
    }

    /** The MPD commands of the nested `if artist:` block. */
    method RefreshBothCommands(a: string, al: string)
      modifies this`mpdCache
      ensures mpdCache == Filled(ext, old(mpdCache), FakeFindExact(ext, tracks, searchCache), PairCalls(a, al))
      ensures mpdCache.Keys == old(mpdCache).Keys + KeysOfCalls(PairCalls(a, al))
      ensures KeepsOthers(old(mpdCache), mpdCache, KeysOfCalls(PairCalls(a, al)))
      ensures forall c :: c in PairCalls(a, al) ==> Answered(ext, mpdCache, FakeFindExact(ext, tracks, searchCache), c)
    {
      FillMpdCache(Find, ["albumartist", a, "album", al]);
      FillMpdCache(Find, ["album", al, "albumartist", a]);
      FillMpdCache(Find, ["artist", a, "album", al]);
      FillMpdCache(Count, ["albumartist", a, "album", al]);
      FillMpdCache(Count, ["album", al, "albumartist", a]);
      FillMpdCache(List, ["albumartist", "artist", a, "album", al]);
      FillMpdCache(Count, ["artist", a, "album", al]);
      // the two forms the MPDroid client sends
      FillMpdCache(Find, ["albumartist", a, "album", al, "track", "1"]);
      FillMpdCache(Find, ["albumartist", a, "album", al, "track", "01"]);
      PairCallsFilled(ext, old(mpdCache), FakeFindExact(ext, tracks, searchCache), a, al);
      PairCallsDistinct(a, al);
      FilledFacts(ext, old(mpdCache), FakeFindExact(ext, tracks, searchCache), PairCalls(a, al));
    }
  }
}
