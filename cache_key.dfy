/**
 * The key a page's cached output is filed under for a request: whether the
 * client is a search engine, and the layout the request is served in.
 */
module CacheKeys {
  import opened Wrappers
  import opened JavaStrings
  import opened UserAgents

  datatype CacheKey = CacheKey(isSearchEngine: bool, layout: string)

  /** The layout a request is served in: the session's choice, else "Text" for Lynx and BlackBerry, else "Default". */
  function Layout(sessionLayout: Option<string>, isLynx: bool, isBlackBerry: bool): (layout: string)
    ensures sessionLayout.Some? ==> layout == sessionLayout.value
    ensures sessionLayout.None? ==> (layout == "Text" <==> isLynx || isBlackBerry)
    ensures sessionLayout.None? ==> (layout == "Default" <==> !isLynx && !isBlackBerry)
  {
    if sessionLayout.Some? then sessionLayout.value
    else if isLynx || isBlackBerry then "Text"
    else "Default"
  }

  /** The key the constructor builds from the request's answers. */
  function NewCacheKey(isSearchEngine: bool, sessionLayout: Option<string>, isLynx: bool, isBlackBerry: bool): CacheKey
  {
    CacheKey(isSearchEngine, Layout(sessionLayout, isLynx, isBlackBerry))
  }

  /** Without a session layout, the key of a request with a given user agent is the text layout exactly for Lynx and BlackBerry. */
  lemma AgentLayout(isSearchEngine: bool, agent: Option<string>)
    ensures var k := NewCacheKey(isSearchEngine, None, IsLynxAgent(agent), IsBlackBerryAgent(agent));
      && k.isSearchEngine == isSearchEngine
      && (k.layout == "Text" <==> IsLynxAgent(agent) || IsBlackBerryAgent(agent))
      && (agent.None? ==> k.layout == "Default")
  {
    MissingAgent();
  }

  /** The argument of equals: null, a cache key, or an object of another class. */
  datatype JavaObject = Null | Key(key: CacheKey) | Other

  /** equals: false for null and for other classes, else both fields compared. */
  function Equals(k: CacheKey, o: JavaObject): (r: bool)
    ensures r <==> o == Key(k)
  {
    if o.Null? then false
    else if !o.Key? then false
    else k.isSearchEngine == o.key.isSearchEngine && k.layout == o.key.layout
  }

  /** equals is an equivalence on keys. */
  lemma EqualsEquivalence(a: CacheKey, b: CacheKey, c: CacheKey)
    ensures Equals(a, Key(a))
    ensures Equals(a, Key(b)) ==> Equals(b, Key(a))
    ensures Equals(a, Key(b)) && Equals(b, Key(c)) ==> Equals(a, Key(c))
  {
  }

  /** hashCode: the layout's hash, negated in int arithmetic for search engines. */
  function HashCode(k: CacheKey): (h: Int32)
    ensures !k.isSearchEngine ==> h == StringHash(k.layout)
    ensures k.isSearchEngine && StringHash(k.layout) != INT_MIN ==> h == -StringHash(k.layout)
    ensures k.isSearchEngine && StringHash(k.layout) == INT_MIN ==> h == INT_MIN
  {
    if k.isSearchEngine then Negate(StringHash(k.layout)) else StringHash(k.layout)
  }

  /** Keys that are equal have equal hash codes. */
  lemma EqualKeysEqualHash(k: CacheKey, o: JavaObject)
    requires Equals(k, o)
    ensures o.Key? && HashCode(k) == HashCode(o.key)
  {
  }

  /**
   * The search-engine key of a layout hashes to the opposite of the other
   * key, and the two differ unless the layout's hash is 0 or the int minimum.
   */
  lemma SearchEngineFlipsHash(layout: string)
    ensures StringHash(layout) != INT_MIN ==>
      HashCode(CacheKey(true, layout)) == -HashCode(CacheKey(false, layout))
    ensures StringHash(layout) != 0 && StringHash(layout) != INT_MIN ==>
      HashCode(CacheKey(true, layout)) != HashCode(CacheKey(false, layout))
    ensures StringHash(layout) == INT_MIN ==>
      HashCode(CacheKey(true, layout)) == HashCode(CacheKey(false, layout))
  {
  }

  /** "Text".hashCode(), computed character by character. */
  lemma TextHash()
    ensures StringHash("Text") == 2603341
  {
    var t := "Text";
    assert t[..0] == [] && t[..1][..0] == t[..0];
    assert StringHash(t[..1]) == 84;
    assert t[..2][..1] == t[..1];
    assert StringHash(t[..2]) == 2705;
    assert t[..3][..2] == t[..2];
    assert StringHash(t[..3]) == 83975;
    assert t[..4][..3] == t[..3] && t[..4] == t;
  }

  /** "Default".hashCode(), computed character by character; the last step wraps around. */
  lemma DefaultHash()
    ensures StringHash("Default") == -1085510111
  {
    var d := "Default";
    assert d[..1][..0] == [];
    assert StringHash(d[..1]) == 68;
    assert d[..2][..1] == d[..1];
    assert StringHash(d[..2]) == 2209;
    assert d[..3][..2] == d[..2];
    assert StringHash(d[..3]) == 68581;
    assert d[..4][..3] == d[..3];
    assert StringHash(d[..4]) == 2126108;
    assert d[..5][..4] == d[..4];
    assert StringHash(d[..5]) == 65909465;
    assert d[..6][..5] == d[..5];
    assert StringHash(d[..6]) == 2043193523;
    assert d[..7][..6] == d[..6] && d[..7] == d;
  }

  /** The four keys a request can get without a session layout all hash differently. */
  lemma DefaultKeysHashApart()
    ensures var keys := [CacheKey(false, "Text"), CacheKey(true, "Text"), CacheKey(false, "Default"), CacheKey(true, "Default")];
      forall i, j :: 0 <= i < j < 4 ==> HashCode(keys[i]) != HashCode(keys[j])
  {
    TextHash();
    DefaultHash();
  }
}
