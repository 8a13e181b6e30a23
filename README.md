# mopidy-local-zodb library, modelled in Dafny

`ZodbLibrary` is a mopidy local library. It keeps its tracks in a ZODB
database, together with three caches derived from them:

- the **browse cache**, a tree of directories built from the tracks' paths;
- the **search cache**, results of `search` keyed by query and exactness;
- the **MPD cache**, answers of the MPD `count`, `find` and `list` commands,
  keyed by a normalised form of the command.

`add` and `remove` change only the track store and append to the **pending
list**. `flush` walks the pending list:

1. it puts each pending track into the browse tree;
2. it collects the (artist name, album name) pairs of the tracks' albums;
3. for every pair, it refreshes a fixed set of MPD answers and searches;
4. it empties the pending list;
5. it refreshes the search for the empty query and the three `list` answers.

The project is organised in these files:

- `keys.dfy` (module `Keys`): the MPD cache key (`get_cache_key`) and the
  search cache key, as datatypes rather than `str()` of tuples.
- `paths.dfy` (module `Paths`): splitting a path into `[^/]+` segments and
  `'/'.join`.
- `tree.dfy` (module `BrowseTree`): the browse cache, with ordered children
  (an `OrderedDict`) and the invariant that every directory is listed under its
  parent. It also holds the walk of `_fill_browser_cache` as a function and
  what that walk changes.
- `models.dfy`, `wrappers.dfy`: tracks, albums, artists and `Option`.
- `flushing.dfy` (module `Flushing`): what `flush` derives from the pending
  list:
  - the pairs it collects;
  - the uris it puts in the tree;
  - per pair, the queries and MPD commands it refreshes.
- `library.dfy` (module `Zodb`):
  - the search and MPD caches as functions;
  - `_fill_browser_cache` as a function of the cache before it;
  - the class `ZodbLibrary`, with the five stores as fields and the source's
    operations as methods. Each method is proved against those functions.

Calls into code outside the library are fields of a `Collaborators` value the
library is constructed with, and are left uninterpreted:

- mopidy's `search.find_exact` and `search.search`;
- the original MPD handlers;
- `translator.local_track_uri_to_path` together with the decoding of the path.

A directory uri is `Dir(segments)`. This stands for
`path_to_local_directory_uri('/'.join(segments))`, which is taken to be
injective (`Paths.JoinInjective` shows that the join is).

## Model

| member | source | states |
|---|---|---|
| Keys.NormalizeTokenEq | mopidy_local_zodb/zodb.py:72-75 | Two tokens normalise alike exactly when they are equal, or are the same field name up to case. |
| Keys.CacheKeyEq | mopidy_local_zodb/zodb.py:72-75 | Two calls share a cache key if and only if they are the same command and their arguments agree token by token up to the case of field names. |
| Keys.ValueCaseKept | mopidy_local_zodb/zodb.py:72-75 | Changing a token that is not a field name (such as an artist's name) changes the key, so values keep their case. |
| Paths.SplitJoin | mopidy_local_zodb/zodb.py:162-168 | Splitting on `[^/]+` undoes `'/'.join` of non-empty, slash-free segments. |
| Paths.JoinInjective | mopidy_local_zodb/zodb.py:176-177 | Different segment lists join into different directory paths. |
| BrowseTree.PutNewValues | mopidy_local_zodb/zodb.py:186-203 | Assigning a new key of an ordered dict appends its reference to `values()`. |
| BrowseTree.PutExistingValues | mopidy_local_zodb/zodb.py:186-203 | Assigning an existing key replaces its reference in place; the order is unchanged. |
| BrowseTree.AncestorsCached | mopidy_local_zodb/zodb.py:175-187 | In a cache closed under ancestors, every prefix of a cached directory is cached, and so is the root. This is why the walk may stop at the first cached ancestor. |
| BrowseTree.WalkFrame | mopidy_local_zodb/zodb.py:175-201 | The walk adds exactly the directories below where it stops, each holding the directory created before it. The stop node gains the last one created. Every other node is unchanged. |
| BrowseTree.WalkKeepsOtherRefs | mopidy_local_zodb/zodb.py:175-201 | The walk keeps every track reference of every node. |
| BrowseTree.WalkLinksCreated | mopidy_local_zodb/zodb.py:186-198 | Each directory the walk creates is listed under its parent directory, or under the root. |
| BrowseTree.WalkKeepsLinks | mopidy_local_zodb/zodb.py:175-201 | A directory listed under its parent before the walk still is after it. |
| BrowseTree.WalkClosed | mopidy_local_zodb/zodb.py:175-201 | The walk keeps the cache closed under ancestors. |
| BrowseTree.WalkCachesPrefixes | mopidy_local_zodb/zodb.py:175-201 | After the walk, every ancestor directory of the track is cached. |
| Zodb.RefreshOne | mopidy_local_zodb/zodb.py:133-139 | Refreshing one query sets its exact and its inexact entry to the uncached search and changes no other key. |
| Zodb.RefreshTwice | mopidy_local_zodb/zodb.py:224-258 | Refreshing one set of queries and then another is refreshing their union. |
| Zodb.RefreshedServesDirect | mopidy_local_zodb/zodb.py:133-158 | After a refresh, `search` of a refreshed query returns the uncached result, for either exactness. |
| Zodb.FakeContextSeesRefreshed | mopidy_local_zodb/zodb.py:103-111 | A handler run by `_fill_mpd_cache` gets, from `find_exact` of a refreshed query, a one-element list holding the uncached exact search. |
| Zodb.FilledKeyHits | mopidy_local_zodb/zodb.py:77-84 | Population and lookup agree. After `_fill_mpd_cache` stores an answer, the wrapped handler returns it for the same command, with any context and any arguments that differ only in the case of field names. |
| Zodb.FilledFrame | mopidy_local_zodb/zodb.py:97-122 | Storing a list of commands adds exactly their keys. Every other key keeps its old answer. |
| Zodb.FilledAnswers | mopidy_local_zodb/zodb.py:97-122 | When no two of the commands share a key, each command's key holds the handler's answer to that command afterwards. |
| Zodb.UnwrittenCallAnswers | mopidy_local_zodb/zodb.py:77-84 | A command whose key a refresh did not write is answered as before: from the old cache entry when there was one, otherwise by the original handler. |
| Zodb.StopIndex | mopidy_local_zodb/zodb.py:175-187 | The walk stops at the longest cached prefix of the directories, or at the root when none is cached. No longer prefix is cached. |
| Zodb.PlacingSound | mopidy_local_zodb/zodb.py:203 | Putting the track into its parent directory keeps the cache well formed and closed, and places the track. Only that directory changes, and it gains the track's reference. |
| Zodb.PlacingIdempotent | mopidy_local_zodb/zodb.py:203 | Putting a track that is already placed changes nothing. |
| Zodb.WithRootSound | mopidy_local_zodb/zodb.py:164-165 | Creating the root keeps the cache well formed and closed. |
| Zodb.ParentIsDeepest | mopidy_local_zodb/zodb.py:179-201 | The track belongs in its deepest directory, or in the root when its path has no directory. |
| Zodb.InsertSound | mopidy_local_zodb/zodb.py:163-204 | Inserting a track keeps the cache well formed and closed under ancestors, and places the track under its parent directory. Every ancestor directory is cached afterwards. No key is removed, and the only keys added are the root and the track's ancestor directories. |
| Zodb.ParentCachedStopsAtOnce | mopidy_local_zodb/zodb.py:183-187 | When the parent directory is already cached, the walk stops there and creates nothing. |
| Zodb.InsertGrowsByOne | mopidy_local_zodb/zodb.py:175-203 | Each directory cached before an insertion gains at most one child. |
| Zodb.InsertIdempotent | mopidy_local_zodb/zodb.py:163-204 | Inserting a track that is already placed leaves the cache unchanged. |
| Zodb.InsertTwice | mopidy_local_zodb/zodb.py:219-221 | Inserting the same track twice equals inserting it once, so the per-artist repetition in `flush` is harmless. |
| Zodb.InsertKeepsPlaced | mopidy_local_zodb/zodb.py:163-204 | Inserting a track keeps every placed track where it was. |
| Zodb.InsertAllPlaces | mopidy_local_zodb/zodb.py:218-221 | After the inserts of `flush`, every inserted track is placed, and so is every track placed before. |
| Zodb.ListedWhenPlaced | mopidy_local_zodb/zodb.py:124-125 | Browsing the parent directory of a placed track lists its reference. |
| Zodb.ListedDirectory | mopidy_local_zodb/zodb.py:124-125 | In a closed cache, browsing a directory's parent lists the directory. |
| Zodb.Listing | mopidy_local_zodb/zodb.py:124-125 | An unknown uri lists nothing. A known uri lists one reference per child, and lists exactly its children's references. |
| Zodb.ZodbLibrary.constructor | mopidy_local_zodb/zodb.py:25-60 | A new library has an empty store, an empty pending list and empty caches, and is valid. |
| Zodb.ZodbLibrary.Lookup | mopidy_local_zodb/zodb.py:127-131 | `None` exactly for an unknown uri. Otherwise the stored track, whose uri is the one looked up. |
| Zodb.ZodbLibrary.Browse | mopidy_local_zodb/zodb.py:124-125 | The references listed are exactly the children of the uri. An unknown uri gives an empty list. |
| Zodb.ZodbLibrary.Add | mopidy_local_zodb/zodb.py:209-211 | The track is stored under its uri, and `lookup` returns it. It is appended to the pending list. |
| Zodb.ZodbLibrary.Remove | mopidy_local_zodb/zodb.py:213-215 | The uri is no longer stored, and `lookup` gives `None`. The removed track, or `None` if there was none, is appended to the pending list. |
| Zodb.ZodbLibrary.Search | mopidy_local_zodb/zodb.py:141-158 | Only `uris` empty, `offset` 0 and `limit` 100 are accepted. The result is the cached entry of (query, exact) when present. Otherwise it is `find_exact` or `search` over all stored tracks. |
| Zodb.ZodbLibrary.FillSearchCache | mopidy_local_zodb/zodb.py:133-139 | The exact and inexact entries of the query become the uncached searches, since the old entry is deleted before searching. No other key changes. |
| Zodb.ZodbLibrary.FillMpdCache | mopidy_local_zodb/zodb.py:97-122 | The original handler's answer, run with a context whose `find_exact` is this library's search, is stored under the normalised key of the command. No other key changes. |
| Zodb.ZodbLibrary.FillBrowserCache | mopidy_local_zodb/zodb.py:163-204 | The new browse cache is the insertion of the track, so all of `InsertSound` holds of it. It stays well formed and closed under ancestors. |
| Zodb.ZodbLibrary.WalkUp | mopidy_local_zodb/zodb.py:173-201 | The loop walks up from the deepest directory. It returns the track's parent directory and stops where `StopIndex` says. The cache becomes the walked cache. |
| Zodb.ZodbLibrary.Flush | mopidy_local_zodb/zodb.py:217-261 | Returns true, and the pending list is empty. The browse cache is the insertion of every pending track whose album has an artist. Each collected pair's searches are refreshed, then the empty query's search. The MPD keys gain exactly the collected pairs' keys and the three `list` keys. Every other key keeps its old answer, and the three `list` keys hold the handler's answers over the final search cache. |
| Zodb.ZodbLibrary.BrowsePending | mopidy_local_zodb/zodb.py:218-222 | The collected pairs are the workload of the pending list. The tree is the insertion of the browsed uris, in order. |
| Zodb.ZodbLibrary.BrowseTrack | mopidy_local_zodb/zodb.py:220-222 | The track adds one pair per artist of its album. It is inserted into the tree when it has an artist, and the tree is unchanged when it has none. |
| Zodb.ZodbLibrary.RefreshPairs | mopidy_local_zodb/zodb.py:224-250 | Over all pairs, in any order, the searches of their shapes are refreshed, and exactly the keys of their MPD commands are added. Every other key keeps its old answer. |
| Zodb.ZodbLibrary.RefreshOneMore | mopidy_local_zodb/zodb.py:224-250 | One turn of the pair loop stores that pair's answers over the search cache of the moment. The keys written so far grow by the pair's keys, and every key outside them still holds its answer from before the loop. |
| Zodb.ZodbLibrary.RefreshPair | mopidy_local_zodb/zodb.py:225-250 | One pair refreshes exactly its search shapes, guarded by which names are set. Its blocks store their answers in source order: the artist block over the old searches, the album block after the artist searches, the nested block after the album search too. No other key changes. |
| Zodb.ZodbLibrary.RefreshArtist | mopidy_local_zodb/zodb.py:225-232 | The artist block refreshes the albumartist and artist searches. Its five commands are answered over the searches as they were before the block, and no other key changes. |
| Zodb.ZodbLibrary.RefreshArtistCommands | mopidy_local_zodb/zodb.py:226-230 | The artist block's five commands add exactly their keys, each holding the handler's answer to that command. No other key changes. |
| Zodb.ZodbLibrary.RefreshAlbum | mopidy_local_zodb/zodb.py:233-236 | The album block's two commands add exactly their keys, each holding the handler's answer over the searches before the block. Then the album search is refreshed. No other key changes. |
| Zodb.ZodbLibrary.RefreshBoth | mopidy_local_zodb/zodb.py:237-250 | The nested block refreshes the two album-with-artist searches. Its nine commands are answered over the searches as they were before the block, and no other key changes. |
| Zodb.ZodbLibrary.RefreshBothCommands | mopidy_local_zodb/zodb.py:238-248 | The nested block's nine commands add exactly their keys, each holding the handler's answer to that command. No other key changes. |
| Zodb.ZodbLibrary.RefreshIndexes | mopidy_local_zodb/zodb.py:254-258 | The empty query's search is refreshed. Three `list` keys are added, each holding the handler's answer over the refreshed cache. No other key changes. |
| Zodb.ZodbLibrary.RefreshLists | mopidy_local_zodb/zodb.py:256-258 | `list artist`, `list album` and `list albumartist` are stored under three distinct keys, each with the handler's answer. No other key changes. |
| Flushing.ArtistPairsStep | mopidy_local_zodb/zodb.py:220-222 | One more artist adds its (artist, album) pair. |
| Flushing.WorkloadPairs | mopidy_local_zodb/zodb.py:218-222 | The collected set is exactly the (artist name, album name) pairs over the album artists of the pending tracks. |
| Flushing.BrowseUrisMembers | mopidy_local_zodb/zodb.py:219-221 | A uri is put in the tree exactly when it is the uri of a pending track whose album has at least one artist. |
| Flushing.SearchShapesFields | mopidy_local_zodb/zodb.py:224-250 | A pair with neither name set refreshes no search. Every refreshed query filters on field names only: the artist fields carry the pair's artist, and the album field carries its album. |
| Flushing.MpdCallsShape | mopidy_local_zodb/zodb.py:225-248 | A pair refreshes five commands if its artist is set, two if its album is, and nine more if both are. Every token is a keyword or one of the pair's names. |
| Flushing.MpdCallsKeys | mopidy_local_zodb/zodb.py:224-250 | A pair's keys are those of its artist, album and combined blocks. |
| Flushing.KeysDiffer | mopidy_local_zodb/zodb.py:72-75 | Two commands with different keywords at the same argument position have different keys. |
| Flushing.ArtistCallsDistinct | mopidy_local_zodb/zodb.py:226-230 | The artist block's five commands write five different keys, whatever the artist's name. |
| Flushing.AlbumCallsDistinct | mopidy_local_zodb/zodb.py:234-235 | The album block's two commands write two different keys. |
| Flushing.PairCallsDistinct | mopidy_local_zodb/zodb.py:238-248 | The nested block's nine commands write nine different keys, whatever the names. |
| Flushing.PairKeys | mopidy_local_zodb/zodb.py:224-250 | The keys refreshed for one pair are exactly those of its artist, album and nested blocks. |
| Flushing.ListKeysDistinct | mopidy_local_zodb/zodb.py:256-258 | The three `list` refreshes write three different keys. |
| Flushing.RefreshedOnePair | mopidy_local_zodb/zodb.py:224-250 | For a single pair, the refreshed queries are its shapes, and the refreshed keys are those of its commands. |
| Flushing.RefreshedAddPair | mopidy_local_zodb/zodb.py:224-250 | Adding a pair adds its queries and keys to those refreshed for the others, so the loop's order does not matter. |
| Flushing.ClientCallHits | mopidy_local_zodb/zodb.py:224-250 | A client command equal to a refreshed command, up to the case of field names, hits a refreshed key. |
| Flushing.FindArtistHits | mopidy_local_zodb/zodb.py:224-232 | For every collected pair with an artist, `find artist "name"` hits the cache whatever the case of `artist`. |

## Left out

- ZODB persistence: `load`'s database opening and root collections, `begin`, `close`, `clear`, `transaction.commit`, `pack` and `_p_changed`. `flush` ends before its commit, and the constructor stands for a new, empty database.
- Installing the wrapped handlers into `commands.handlers`, because it mutates a foreign registry. The wrapped handler is modelled as a function over an abstract handler. Only `cache_mpd` enabled is modelled.
- The construction of `MpdContext` and `FakeCore`, apart from `find_exact`, which is `Zodb.FakeFindExact`. The `playlists` stub is not modelled. The handlers themselves are uninterpreted.
- `search.find_exact` and `search.search`: they are uninterpreted functions of the stored tracks and the query, and the store's value order is not modelled.
- `translator` uri/path conversion and the filesystem decoding: they are one uninterpreted function from track uri to path. Directory uris are `Dir(segments)`.
- `str()` keys are modelled as datatypes. `deepcopy` is left out because it makes no difference under value semantics. The debug `print` is left out.
- Zodb.ZodbLibrary.Flush: states the keys the MPD cache gains, that every other key keeps its answer, and the final three `list` answers. It does not state the answers stored per pair. A pair's answers depend on which pairs were refreshed before it, and that depends on set iteration order, which the model leaves free. `RefreshPair` and `RefreshOneMore` state one pair's answers exactly.
- Zodb.ZodbLibrary.RefreshPairs: states the keys it adds and that every other key keeps its answer, not the answers it stores, for the same reason.
- Zodb.ZodbLibrary.FillBrowserCache: requires at least one path segment, because `parts.pop()` raises on an empty path.
- Zodb.ZodbLibrary.Flush: requires every pending entry to be a track with an album, because `flush` raises on a `None` entry (from `remove` of an unknown uri) and on an album of `None`. It requires every browsed track's path to have a segment.
- Zodb.ZodbLibrary.Search: requires the conditions that the source asserts (`uris` empty, `offset` 0, `limit` 100).
- The helper methods inside `flush` (`BrowsePending`, `BrowseTrack`, `RefreshPairs`, `RefreshPair` and the block methods) follow the source's loops and blocks one for one. The source writes them inline.

Behaviour of the code that the model keeps:

- `a.lower()` is Python 2's `unicode.lower()` on the argument. Of the characters that lower-case into a letter of a field name, the model keeps the ASCII capitals and the capital I with a dot above, which lower-cases to `i` (`Keys.LowerChar`).
- `get_cache_key` lower-cases the field-name tokens themselves (`artist`, `Album`, ...), not the values that follow them. `Keys.ValueCaseKept` shows that a value keeps its case in the key.
- The root directory's uri is `local:directory`.
- Inserting the same track again does not add a duplicate child. The children are an `OrderedDict`, so re-assigning a key keeps one entry (`Zodb.InsertIdempotent`).
- The wrapped MPD handler falls back to the original handler on a miss (`Zodb.WrappedCall`).
- A removed track is appended to the pending list and is therefore put back into the browse tree by the next `flush`. A track whose album has no artist is never put in the tree.
- `search` does not store what it computes on a miss. Only `_fill_search_cache` writes the search cache.
- Each pair's MPD answers are computed over the search cache as it is at that moment. In the source, a pair's own searches are refreshed after its MPD commands in each block.
