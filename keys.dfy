/**
 * Cache keys of the ZODB library: the normalised MPD command key shared by
 * the command wrapper and the cache populator, and the search-cache key.
 * Python builds both keys with `str()` of a tuple; here they are datatypes.
 */
module Keys {

  /** The three MPD commands whose handlers are wrapped by the cache. */
  datatype Command = Count | Find | List

  /** A normalised MPD cache key: the command and the normalised tokens. */
  datatype MpdKey = MpdKey(cmd: Command, tokens: seq<string>)

  /** A search query: Python's `None` or a dict of field -> values. */
  datatype Query = NoQuery | Fields(fields: map<string, seq<string>>)

  /** Key of the search cache: the query and the exactness flag. */
  datatype SearchKey = SearchKey(query: Query, exact: bool)

  /** The field-name tokens whose case MPD clients vary. */
  const FieldNames: set<string> := {"artist", "album", "albumartist"}

  /**
   * Python 2's `unicode.lower()` on one character, for the characters that
   * lower-case into a letter of a field name: the ASCII capitals, and the
   * capital I with a dot above, which lower-cases to a plain `i`. Every
   * other character is kept as it is.
   */
  function LowerChar(c: char): (d: char)
    ensures 'A' <= c <= 'Z' ==> 'a' <= d <= 'z' && d as int - 'a' as int == c as int - 'A' as int
    ensures c == '\U{0130}' ==> d == 'i'
    ensures !('A' <= c <= 'Z') && c != '\U{0130}' ==> d == c
  {
    if 'A' <= c <= 'Z' then (c as int + 32) as char
    else if c == '\U{0130}' then 'i'
    else c
  }

  /** `unicode.lower()`, character by character as `LowerChar` says. */
  function Lower(s: string): (r: string)
    ensures |r| == |s|
    ensures forall i :: 0 <= i < |s| ==> r[i] == LowerChar(s[i])
  {
    seq(|s|, i requires 0 <= i < |s| => LowerChar(s[i]))
  }

  /** The token kept in a cache key for one argument. */
  function NormalizeToken(a: string): string
  {
    if Lower(a) in FieldNames then Lower(a) else a
  }

  /**
   * `get_cache_key`: the command name followed by every argument after the
   * context, field-name tokens lower-cased and every other token verbatim.
   * The caller passes the arguments with the context already dropped.
   */
  function CacheKey(cmd: Command, args: seq<string>): MpdKey
  {
    MpdKey(cmd, seq(|args|, i requires 0 <= i < |args| => NormalizeToken(args[i])))
  }

  /**
   * The key keeps the command and one token per argument: field names in
   * lower case, every other token as it was given.
   */
  lemma CacheKeyTokens(cmd: Command, args: seq<string>)
    ensures CacheKey(cmd, args).cmd == cmd && |CacheKey(cmd, args).tokens| == |args|
    ensures forall i :: 0 <= i < |args| && Lower(args[i]) in FieldNames ==>
      CacheKey(cmd, args).tokens[i] == Lower(args[i]) && Lower(CacheKey(cmd, args).tokens[i]) == Lower(args[i])
    ensures forall i :: 0 <= i < |args| && Lower(args[i]) !in FieldNames ==> CacheKey(cmd, args).tokens[i] == args[i]
  {
    forall i | 0 <= i < |args| && Lower(args[i]) in FieldNames
      ensures Lower(CacheKey(cmd, args).tokens[i]) == Lower(args[i])
    {
      FieldNamesAreLowercase(Lower(args[i]));
    }
  }

  /** Two tokens that the key normaliser does not tell apart. */
  predicate SameToken(a: string, b: string)
  {
    a == b || (Lower(a) in FieldNames && Lower(a) == Lower(b))
  }

  lemma LowerOfLowercase(s: string)
    requires forall i :: 0 <= i < |s| ==> !('A' <= s[i] <= 'Z') && s[i] != '\U{0130}'
    ensures Lower(s) == s
  {
  }

  lemma FieldNamesAreLowercase(s: string)
    requires s in FieldNames
    ensures Lower(s) == s
  {
    LowerOfLowercase(s);
  }

  /** The normalised tokens of `a` and `b` coincide exactly when they are the same token. */
  lemma NormalizeTokenEq(a: string, b: string)
    ensures NormalizeToken(a) == NormalizeToken(b) <==> SameToken(a, b)
  {
    if Lower(a) in FieldNames && Lower(b) !in FieldNames && NormalizeToken(a) == NormalizeToken(b) {
      FieldNamesAreLowercase(b);
    }
    if Lower(b) in FieldNames && Lower(a) !in FieldNames && NormalizeToken(a) == NormalizeToken(b) {
      FieldNamesAreLowercase(a);
    }
  }

  /**
   * Two calls share a cache key exactly when they name the same command and
   * their arguments agree token by token up to the case of field names.
   */
  lemma CacheKeyEq(c1: Command, a1: seq<string>, c2: Command, a2: seq<string>)
    ensures CacheKey(c1, a1) == CacheKey(c2, a2) <==>
      c1 == c2 && |a1| == |a2| && forall i :: 0 <= i < |a1| ==> SameToken(a1[i], a2[i])
  {
    var k1, k2 := CacheKey(c1, a1), CacheKey(c2, a2);
    if k1 == k2 {
      forall i | 0 <= i < |a1| ensures SameToken(a1[i], a2[i]) {
        assert k1.tokens[i] == k2.tokens[i];
        NormalizeTokenEq(a1[i], a2[i]);
      }
    }
    if c1 == c2 && |a1| == |a2| && forall i :: 0 <= i < |a1| ==> SameToken(a1[i], a2[i]) {
      forall i | 0 <= i < |a1| ensures k1.tokens[i] == k2.tokens[i] {
        NormalizeTokenEq(a1[i], a2[i]);
      }
    }
  }

  /** A value token (one that is not a field name) keeps its case in the key. */
  lemma ValueCaseKept(cmd: Command, args: seq<string>, i: nat, v: string)
    requires i < |args| && Lower(args[i]) !in FieldNames && v != args[i]
    ensures CacheKey(cmd, args) != CacheKey(cmd, args[i := v])
  {
    var k, k' := CacheKey(cmd, args), CacheKey(cmd, args[i := v]);
    NormalizeTokenEq(args[i], v);
    assert k.tokens[i] != k'.tokens[i];
  }
}
