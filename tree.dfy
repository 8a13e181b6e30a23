/**
 * The browse cache: a map from directory uri to the ordered children of that
 * directory, and the shape invariant that every directory is linked from its
 * parent directory (or from the root).
 */
module BrowseTree {
  import opened Wrappers

  /**
   * Uris that can appear in the browse cache. `Root` is `local:directory`;
   * `Dir(segments)` is the directory uri of the path `'/'.join(segments)`;
   * `TrackUri(s)` is the uri of a track.
   */
  datatype Uri = Root | Dir(path: seq<string>) | TrackUri(uri: string)

  /** A browse reference (`models.Ref.directory` or `models.Ref.track`). */
  datatype Ref = DirectoryRef(uri: Uri, name: string) | TrackRef(uri: Uri, name: string)

  /** An `OrderedDict` from child uri to reference: keys in insertion order. */
  datatype Children = Children(order: seq<Uri>, refs: map<Uri, Ref>)
  {
    ghost predicate Valid()
    {
      && (forall i, j :: 0 <= i < j < |order| ==> order[i] != order[j])
      && (forall i :: 0 <= i < |order| ==> order[i] in refs)
      && (forall k :: k in refs ==> k in order)
    }

    /** `d[k] = r`: a new key goes last, an existing key keeps its place. */
    function Put(k: Uri, r: Ref): (c: Children)
      requires Valid()
      ensures c.Valid()
      ensures c.refs == refs[k := r]
      ensures k in refs ==> c.order == order
      ensures k !in refs ==> c.order == order + [k]
    {
      Children(if k in refs then order else order + [k], refs[k := r])
    }

    /** `d.values()`: the references in insertion order. */
    function Values(): (vs: seq<Ref>)
      requires Valid()
      ensures |vs| == |order|
      ensures forall i :: 0 <= i < |order| ==> vs[i] == refs[order[i]]
    {
      seq(|order|, i requires 0 <= i < |order| => refs[order[i]])
    }
  }

  const Empty: Children := Children([], map[])

  lemma EmptyValid()
    ensures Empty.Valid() && Empty.Values() == []
  {
  }

  /** Putting a new key appends its reference to the values. */
  lemma PutNewValues(c: Children, k: Uri, r: Ref)
    requires c.Valid() && k !in c.refs
    ensures c.Put(k, r).Values() == c.Values() + [r]
  {
    var vs, vs' := c.Values(), c.Put(k, r).Values();
    assert |vs'| == |vs| + 1;
    forall i | 0 <= i < |vs| ensures vs'[i] == vs[i] {
      assert c.order[i] != k;
    }
  }

  /** Putting an existing key replaces its reference in place. */
  lemma PutExistingValues(c: Children, k: Uri, r: Ref)
    requires c.Valid() && k in c.refs
    ensures |c.Put(k, r).Values()| == |c.Values()|
    ensures forall i :: 0 <= i < |c.order| ==>
      c.Put(k, r).Values()[i] == if c.order[i] == k then r else c.Values()[i]
  {
  }

  /** Putting a key with the reference it already has changes nothing. */
  lemma PutSame(c: Children, k: Uri)
    requires c.Valid() && k in c.refs
    ensures c.Put(k, c.refs[k]) == c
  {
  }

  type Tree = map<Uri, Children>

  /** Every ordered dict in the cache is well formed. */
  ghost predicate WellFormed(b: Tree)
  {
    forall u :: u in b ==> b[u].Valid()
  }

  /** The directory that holds the directory of the non-empty path `p`. */
  function ParentOf(p: seq<string>): (u: Uri)
    requires |p| > 0
    ensures |p| == 1 <==> u == Root
    ensures |p| > 1 ==> u == Dir(p[..|p| - 1])
  {
    if |p| == 1 then Root else Dir(p[..|p| - 1])
  }

  /** The reference to the directory of `p` under its parent. */
  function DirRefOf(p: seq<string>): (r: Ref)
    requires |p| > 0
    ensures r.DirectoryRef? && r.uri == Dir(p) && r.name == p[|p| - 1]
  {
    DirectoryRef(Dir(p), p[|p| - 1])
  }

  /** The directory of `p` is listed under its parent, which exists. */
  ghost predicate Linked(b: Tree, p: seq<string>)
    requires |p| > 0
  {
    ParentOf(p) in b && Dir(p) in b[ParentOf(p)].refs && b[ParentOf(p)].refs[Dir(p)] == DirRefOf(p)
  }

  /**
   * Membership of the cache, named so that the ancestor invariant below is
   * only unfolded for the uris a proof mentions (unfolding it for every
   * parent it produces would not terminate).
   */
  predicate Cached(b: Tree, u: Uri)
  {
    u in b
  }

  /**
   * The cache is closed under ancestors: its keys are the root and
   * directories of non-empty paths, each listed under its parent.
   */
  ghost predicate Closed(b: Tree)
  {
    forall u {:trigger Cached(b, u)} :: Cached(b, u) ==> u.Root? || (u.Dir? && |u.path| > 0 && Linked(b, u.path))
  }

  /** In a closed cache, every ancestor of a cached directory is cached, and so is the root. */
  lemma {:induction false} AncestorsCached(b: Tree, p: seq<string>, m: nat)
    requires Closed(b) && Dir(p) in b
    requires 1 <= m <= |p|
    ensures Dir(p[..m]) in b && Root in b
    decreases |p|
  {
    assert Cached(b, Dir(p));
    if m == |p| {
      assert p[..m] == p;
      if |p| > 1 {
        AncestorsCached(b, p[..|p| - 1], |p| - 1);
      }
    } else {
      var q := p[..|p| - 1];
      assert Dir(q) in b;
      AncestorsCached(b, q, m);
      assert q[..m] == p[..m];
    }
  }

  // ---------------------------------------------------------------------
  // The walk of the browse-tree builder, for the directories `dirs` of a
  // track path. It visits prefixes from the longest to the shortest,
  // creating each missing directory, and stops at the first prefix `i`
  // that exists (or at the root, `i == 0`).

  /** The directories of the prefixes of `dirs` longer than `i`. */
  ghost function DirsBelow(dirs: seq<string>, i: nat): set<Uri>
  {
    set m | i < m <= |dirs| :: Dir(dirs[..m])
  }

  /** The children a directory gets when the walk creates it for prefix length `m`. */
  function ChainNode(dirs: seq<string>, m: nat): (c: Children)
    requires 0 < m <= |dirs|
    ensures c.Valid()
    ensures m == |dirs| ==> c.refs == map[]
    ensures m < |dirs| ==> c.refs == map[Dir(dirs[..m + 1]) := DirRefOf(dirs[..m + 1])]
  {
    if m == |dirs| then Empty else Empty.Put(Dir(dirs[..m + 1]), DirRefOf(dirs[..m + 1]))
  }

  /** The pending child when the walk is at prefix length `i`: the directory created last. */
  function PendingChild(dirs: seq<string>, i: nat): (c: Option<Ref>)
    requires i <= |dirs|
    ensures i == |dirs| <==> c.None?
    ensures i < |dirs| ==> c.value == DirRefOf(dirs[..i + 1])
  {
    if i == |dirs| then None else Some(DirRefOf(dirs[..i + 1]))
  }

  /** Where the walk stops: the existing directory of prefix `i`, or the root. */
  function StopAt(dirs: seq<string>, i: nat): (u: Uri)
    requires i <= |dirs|
    ensures i == 0 <==> u == Root
    ensures i > 0 ==> u == Dir(dirs[..i])
  {
    if i == 0 then Root else Dir(dirs[..i])
  }

  /** `b` with the directories of the prefixes longer than `i` created. */
  ghost function Chain(b: Tree, dirs: seq<string>, i: nat): Tree
    requires i <= |dirs|
    decreases |dirs| - i
  {
    if i == |dirs| then b else Chain(b, dirs, i + 1)[Dir(dirs[..i + 1]) := ChainNode(dirs, i + 1)]
  }

  lemma DirsBelowStep(dirs: seq<string>, i: nat)
    requires i < |dirs|
    ensures DirsBelow(dirs, i) == DirsBelow(dirs, i + 1) + {Dir(dirs[..i + 1])}
    ensures Dir(dirs[..i + 1]) !in DirsBelow(dirs, i + 1)
  {
    forall u | u in DirsBelow(dirs, i) ensures u in DirsBelow(dirs, i + 1) + {Dir(dirs[..i + 1])} {
      var m :| i < m <= |dirs| && u == Dir(dirs[..m]);
      if m > i + 1 {
        assert u in DirsBelow(dirs, i + 1);
      }
    }
    forall m | i + 1 < m <= |dirs| ensures Dir(dirs[..m]) != Dir(dirs[..i + 1]) {
      assert |dirs[..m]| == m;
    }
  }

  lemma StopNotBelow(dirs: seq<string>, i: nat)
    requires i <= |dirs|
    ensures StopAt(dirs, i) !in DirsBelow(dirs, i)
  {
    if i > 0 {
      forall m | i < m <= |dirs| ensures Dir(dirs[..m]) != Dir(dirs[..i]) {
        assert |dirs[..m]| == m;
      }
    }
  }

  lemma {:induction false} ChainFacts(b: Tree, dirs: seq<string>, i: nat)
    requires i <= |dirs|
    ensures Chain(b, dirs, i).Keys == b.Keys + DirsBelow(dirs, i)
    ensures forall m :: i < m <= |dirs| ==> Chain(b, dirs, i)[Dir(dirs[..m])] == ChainNode(dirs, m)
    ensures forall u :: u in b && u !in DirsBelow(dirs, i) ==> Chain(b, dirs, i)[u] == b[u]
    decreases |dirs| - i
  {
    if i < |dirs| {
      ChainFacts(b, dirs, i + 1);
      DirsBelowStep(dirs, i);
      var c', k := Chain(b, dirs, i + 1), Dir(dirs[..i + 1]);
      assert Chain(b, dirs, i) == c'[k := ChainNode(dirs, i + 1)];
      forall m | i + 1 < m <= |dirs| ensures Dir(dirs[..m]) != k {
        assert |dirs[..m]| == m;
      }
    } else {
      assert DirsBelow(dirs, i) == {};
    }
  }

  /** The walk's view of the directory of prefix `i` before it is created. */
  lemma ChainAt(b: Tree, dirs: seq<string>, i: nat)
    requires 0 < i <= |dirs|
    ensures Dir(dirs[..i]) in Chain(b, dirs, i) <==> Dir(dirs[..i]) in b
    ensures Dir(dirs[..i]) in b ==> Chain(b, dirs, i)[Dir(dirs[..i])] == b[Dir(dirs[..i])]
  {
    ChainFacts(b, dirs, i);
    StopNotBelow(dirs, i);
  }

  /** Put the optional child under `u`. */
  ghost function Attach(b: Tree, u: Uri, child: Option<Ref>): Tree
    requires u in b && b[u].Valid()
  {
    if child.Some? then b[u := b[u].Put(child.value.uri, child.value)] else b
  }

  /** The cache when the walk has stopped at prefix `i`. */
  ghost function Walked(b: Tree, dirs: seq<string>, i: nat): Tree
    requires i <= |dirs| && WellFormed(b)
    requires StopAt(dirs, i) in b
    requires forall m :: i < m <= |dirs| ==> Dir(dirs[..m]) !in b
  {
    ChainFacts(b, dirs, i);
    assert StopAt(dirs, i) !in DirsBelow(dirs, i);
    Attach(Chain(b, dirs, i), StopAt(dirs, i), PendingChild(dirs, i))
  }

  /** Unfolds `Walked`: the node the walk stops at is the one the cache had. */
  lemma WalkedIs(b: Tree, dirs: seq<string>, i: nat)
    requires i <= |dirs| && WellFormed(b)
    requires StopAt(dirs, i) in b
    requires forall m :: i < m <= |dirs| ==> Dir(dirs[..m]) !in b
    ensures StopAt(dirs, i) in Chain(b, dirs, i)
    ensures Chain(b, dirs, i)[StopAt(dirs, i)] == b[StopAt(dirs, i)]
    ensures Walked(b, dirs, i) == Attach(Chain(b, dirs, i), StopAt(dirs, i), PendingChild(dirs, i))
  {
    ChainFacts(b, dirs, i);
    StopNotBelow(dirs, i);
  }

  /** `c` is `c0` with at most one key set. */
  ghost predicate GrowsByOne(c0: Children, c: Children)
    requires c0.Valid()
  {
    c == c0 || exists k, r :: c == c0.Put(k, r)
  }

  /** What the walk changes: the created directories, and one child under where it stopped. */
  lemma WalkFrame(b: Tree, dirs: seq<string>, i: nat)
    requires WellFormed(b)
    requires i <= |dirs|
    requires StopAt(dirs, i) in b
    requires forall m :: i < m <= |dirs| ==> Dir(dirs[..m]) !in b
    ensures var w := Walked(b, dirs, i);
      && WellFormed(w)
      && w.Keys == b.Keys + DirsBelow(dirs, i)
      && (forall m :: i < m <= |dirs| ==> w[Dir(dirs[..m])] == ChainNode(dirs, m))
      && (forall u :: u in b && u != StopAt(dirs, i) ==> w[u] == b[u])
      && w[StopAt(dirs, i)] == (if i == |dirs| then b[StopAt(dirs, i)]
                                else b[StopAt(dirs, i)].Put(Dir(dirs[..i + 1]), DirRefOf(dirs[..i + 1])))
  {
    ChainFacts(b, dirs, i);
    var top := StopAt(dirs, i);
    assert top !in DirsBelow(dirs, i);
    var w := Walked(b, dirs, i);
    assert w == Attach(Chain(b, dirs, i), top, PendingChild(dirs, i));
    forall u | u in b ensures u !in DirsBelow(dirs, i) {
    }
  }

  /** Every node the walk neither creates nor stops at is left as it was. */
  lemma WalkOtherNode(b: Tree, dirs: seq<string>, i: nat, u: Uri)
    requires WellFormed(b)
    requires i <= |dirs|
    requires StopAt(dirs, i) in b
    requires forall m :: i < m <= |dirs| ==> Dir(dirs[..m]) !in b
    requires u in b && u != StopAt(dirs, i)
    ensures u in Walked(b, dirs, i) && Walked(b, dirs, i)[u] == b[u]
  {
    WalkFrame(b, dirs, i);
  }

  /** The walk only adds directory keys, so every other child of every node stays. */
  lemma WalkKeepsOtherRefs(b: Tree, dirs: seq<string>, i: nat, u: Uri, k: Uri)
    requires WellFormed(b)
    requires i <= |dirs|
    requires StopAt(dirs, i) in b
    requires forall m :: i < m <= |dirs| ==> Dir(dirs[..m]) !in b
    requires u in b && k in b[u].refs && !k.Dir?
    ensures u in Walked(b, dirs, i) && k in Walked(b, dirs, i)[u].refs
    ensures Walked(b, dirs, i)[u].refs[k] == b[u].refs[k]
  {
    if u == StopAt(dirs, i) {
      WalkStopNode(b, dirs, i);
    } else {
      WalkOtherNode(b, dirs, i, u);
    }
  }

  lemma ParentOfPrefix(dirs: seq<string>, m: nat)
    requires 0 < m <= |dirs|
    ensures ParentOf(dirs[..m]) == StopAt(dirs, m - 1)
  {
    if m > 1 {
      assert dirs[..m][..m - 1] == dirs[..m - 1];
    }
  }

  /** The node of a directory the walk creates. */
  lemma WalkCreatedNode(b: Tree, dirs: seq<string>, i: nat, m: nat)
    requires WellFormed(b)
    requires i < m <= |dirs|
    requires StopAt(dirs, i) in b
    requires forall m :: i < m <= |dirs| ==> Dir(dirs[..m]) !in b
    ensures Dir(dirs[..m]) in Walked(b, dirs, i) && Walked(b, dirs, i)[Dir(dirs[..m])] == ChainNode(dirs, m)
  {
    WalkFrame(b, dirs, i);
    assert Dir(dirs[..m]) in DirsBelow(dirs, i);
  }

  /** The node the walk stops at gains the first directory created, if any. */
  lemma WalkStopNode(b: Tree, dirs: seq<string>, i: nat)
    requires WellFormed(b)
    requires i <= |dirs|
    requires StopAt(dirs, i) in b
    requires forall m :: i < m <= |dirs| ==> Dir(dirs[..m]) !in b
    ensures StopAt(dirs, i) in Walked(b, dirs, i)
    ensures Walked(b, dirs, i)[StopAt(dirs, i)] == (if i == |dirs| then b[StopAt(dirs, i)]
                                else b[StopAt(dirs, i)].Put(Dir(dirs[..i + 1]), DirRefOf(dirs[..i + 1])))
  {
    WalkFrame(b, dirs, i);
  }

  /** A directory the walk creates is listed under its parent. */
  lemma WalkLinksCreated(b: Tree, dirs: seq<string>, i: nat, m: nat)
    requires WellFormed(b)
    requires i < m <= |dirs|
    requires StopAt(dirs, i) in b
    requires forall m :: i < m <= |dirs| ==> Dir(dirs[..m]) !in b
    ensures Linked(Walked(b, dirs, i), dirs[..m])
  {
    var w := Walked(b, dirs, i);
    var p := dirs[..m];
    ParentOfPrefix(dirs, m);
    if m - 1 > i {
      WalkCreatedNode(b, dirs, i, m - 1);
      assert dirs[..m - 1 + 1] == p;
      assert w[ParentOf(p)].refs == map[Dir(p) := DirRefOf(p)];
    } else {
      WalkStopNode(b, dirs, i);
      assert dirs[..i + 1] == p;
      assert w[ParentOf(p)].refs == b[ParentOf(p)].refs[Dir(p) := DirRefOf(p)];
    }
  }

  /** A directory linked before the walk is still linked after it. */
  lemma WalkKeepsLinks(b: Tree, dirs: seq<string>, i: nat, p: seq<string>)
    requires WellFormed(b)
    requires i <= |dirs|
    requires StopAt(dirs, i) in b
    requires forall m :: i < m <= |dirs| ==> Dir(dirs[..m]) !in b
    requires |p| > 0 && Dir(p) in b && Linked(b, p)
    ensures Linked(Walked(b, dirs, i), p)
  {
    var par := ParentOf(p);
    if par == StopAt(dirs, i) {
      WalkStopNode(b, dirs, i);
      if i < |dirs| {
        assert Dir(p) != Dir(dirs[..i + 1]);
      }
    } else {
      WalkOtherNode(b, dirs, i, par);
    }
  }

  /** The walk keeps the cache closed under ancestors. */
  lemma WalkClosed(b: Tree, dirs: seq<string>, i: nat)
    requires WellFormed(b) && Closed(b)
    requires i <= |dirs|
    requires StopAt(dirs, i) in b
    requires forall m :: i < m <= |dirs| ==> Dir(dirs[..m]) !in b
    ensures Closed(Walked(b, dirs, i))
  {
    WalkFrame(b, dirs, i);
    var w := Walked(b, dirs, i);
    forall u | Cached(w, u) ensures u.Root? || (u.Dir? && |u.path| > 0 && Linked(w, u.path)) {
      if u in b {
        assert Cached(b, u);
        if u.Dir? {
          WalkKeepsLinks(b, dirs, i, u.path);
        }
      } else {
        var m :| i < m <= |dirs| && u == Dir(dirs[..m]);
        WalkLinksCreated(b, dirs, i, m);
      }
    }
  }

  /** The walk removes no directory. */
  lemma WalkKeepsKeys(b: Tree, dirs: seq<string>, i: nat)
    requires WellFormed(b)
    requires i <= |dirs|
    requires StopAt(dirs, i) in b
    requires forall m :: i < m <= |dirs| ==> Dir(dirs[..m]) !in b
    ensures b.Keys <= Walked(b, dirs, i).Keys
  {
    WalkFrame(b, dirs, i);
  }

  /** After the walk every prefix of `dirs` has its directory. */
  lemma WalkCachesPrefixes(b: Tree, dirs: seq<string>, i: nat)
    requires WellFormed(b) && Closed(b)
    requires i <= |dirs|
    requires StopAt(dirs, i) in b
    requires forall m :: i < m <= |dirs| ==> Dir(dirs[..m]) !in b
    ensures forall m :: 1 <= m <= |dirs| ==> Dir(dirs[..m]) in Walked(b, dirs, i)
  {
    WalkKeepsKeys(b, dirs, i);
    forall m | 1 <= m <= |dirs| ensures Dir(dirs[..m]) in Walked(b, dirs, i) {
      if m <= i {
        AncestorsCached(b, dirs[..i], m);
        assert dirs[..i][..m] == dirs[..m];
      } else {
        WalkCreatedNode(b, dirs, i, m);
      }
    }
  }
}
