/**
 * Appending query parameters to a URL under construction. The URL is a
 * StringBuilder and the names already written are a set that the caller
 * threads through successive calls, so that only the first value of each
 * name reaches the URL.
 */
module UrlParams {
  import opened Wrappers

  /** java.lang.StringBuilder: text that is appended to in place. */
  class StringBuilder {
    var contents: string

    constructor (s: string)
      ensures contents == s
    {
      contents := s;
    }
  }

  /** java.util.Set<String> of parameter names already written to the URL. */
  class NameSet {
    var elements: set<string>

    constructor ()
      ensures elements == {}
    {
      elements := {};
    }
  }

  /** The character that introduces a parameter: '?' for the first one, '&' after. */
  function Separator(hasQuery: bool): char
  {
    if hasQuery then '&' else '?'
  }

  /** The text one raw name/value pair adds, each side passed through the URI component encoder. */
  function EncodedPair(name: string, value: string, hasQuery: bool, encode: string -> string): string
  {
    [Separator(hasQuery)] + encode(name) + "=" + encode(value)
  }

  /** The names of a parameter list. */
  function Names(ps: seq<(string, string)>): set<string>
  {
    set i | 0 <= i < |ps| :: ps[i].0
  }

  lemma NamesSnoc(ps: seq<(string, string)>, p: (string, string))
    ensures Names(ps + [p]) == Names(ps) + {p.0}
  {
    var qs := ps + [p];
    forall n | n in Names(qs) ensures n in Names(ps) + {p.0} {
      var i :| 0 <= i < |qs| && qs[i].0 == n;
      if i < |ps| { assert ps[i] == qs[i]; }
    }
    forall n | n in Names(ps) ensures n in Names(qs) {
      var i :| 0 <= i < |ps| && ps[i].0 == n;
      assert qs[i] == ps[i];
    }
    assert qs[|ps|] == p;
  }

  /** Writing one more pair adds its text, introduced by '&' unless it is the first pair of a URL without a query. */
  lemma RenderedSnoc(ps: seq<(string, string)>, p: (string, string), hasQuery: bool, encode: string -> string)
    ensures Rendered(ps + [p], hasQuery, encode)
      == Rendered(ps, hasQuery, encode) + EncodedPair(p.0, p.1, hasQuery || |ps| > 0, encode)
  {
    RenderedAppend(ps, [p], hasQuery, encode);
    assert Rendered([p], hasQuery || |ps| > 0, encode) == EncodedPair(p.0, p.1, hasQuery || |ps| > 0, encode) + "";
  }

  /**
   * The pairs of ps that are written when the names in seen are already in
   * the URL: each name's first pair, unless the name was seen before.
   */
  function FirstUnseen(ps: seq<(string, string)>, seen: set<string>): seq<(string, string)>
    decreases |ps|
  {
    if ps == [] then []
    else if ps[0].0 in seen then FirstUnseen(ps[1..], seen)
    else [ps[0]] + FirstUnseen(ps[1..], seen + {ps[0].0})
  }

  /** The text that writing the pairs adds after a URL whose query state is hasQuery. */
  function Rendered(ps: seq<(string, string)>, hasQuery: bool, encode: string -> string): string
    decreases |ps|
  {
    if ps == [] then ""
    else EncodedPair(ps[0].0, ps[0].1, hasQuery, encode) + Rendered(ps[1..], true, encode)
  }

  /** Appends an already-encoded name and optional value. */
  method AppendEncodedParam(url: StringBuilder, encodedName: string, encodedValue: Option<string>, hasQuery: bool)
    returns (r: bool)
    modifies url
    ensures r
    ensures url.contents == old(url.contents) + [Separator(hasQuery)] + encodedName
      + (if encodedValue.Some? then "=" + encodedValue.value else "")
  {
    url.contents := url.contents + [Separator(hasQuery)] + encodedName;
    if encodedValue.Some? {
      url.contents := url.contents + "=" + encodedValue.value;
    }
    r := true;
  }

  /** Appends a raw name and value, encoding both. */
  method AppendParam(url: StringBuilder, name: string, value: string, hasQuery: bool, encode: string -> string)
    returns (r: bool)
    modifies url
    ensures r
    ensures url.contents == old(url.contents) + EncodedPair(name, value, hasQuery, encode)
  {
    url.contents := url.contents + [Separator(hasQuery)];
    url.contents := url.contents + encode(name);
    url.contents := url.contents + "=";
    url.contents := url.contents + encode(value);
    r := true;
  }

  /** Appends a raw name and value unless the name is already in the URL. */
  method AppendNewParam(url: StringBuilder, name: string, value: string, finishedParams: NameSet, hasQuery: bool, encode: string -> string)
    returns (r: bool)
    modifies url, finishedParams
    ensures finishedParams.elements == old(finishedParams.elements) + {name}
    ensures name in old(finishedParams.elements) ==> r == hasQuery && url.contents == old(url.contents)
    ensures name !in old(finishedParams.elements) ==>
      r && url.contents == old(url.contents) + EncodedPair(name, value, hasQuery, encode)
  {
    r := hasQuery;
    if name !in finishedParams.elements {
      finishedParams.elements := finishedParams.elements + {name};
      r := AppendParam(url, name, value, hasQuery, encode);
    }
  }

  /**
   * Appends every parameter whose name is not yet in the URL, in order; params
   * lists each name with its first value, None standing for no parameters.
   */
  method AppendParams(url: StringBuilder, params: Option<seq<(string, string)>>, finishedParams: NameSet, hasQuery: bool, encode: string -> string)
    returns (r: bool)
    modifies url, finishedParams
    ensures var ps := if params.Some? then params.value else [];
      var added := FirstUnseen(ps, old(finishedParams.elements));
      && url.contents == old(url.contents) + Rendered(added, hasQuery, encode)
      && finishedParams.elements == old(finishedParams.elements) + Names(ps)
      && r == (hasQuery || |added| > 0)
  {
    if params.Some? {
      r := AppendParamList(url, params.value, finishedParams, hasQuery, encode);
    } else {
      r := hasQuery;
      assert FirstUnseen([], finishedParams.elements) == [];
      assert Names([]) == {};
      assert url.contents + Rendered([], hasQuery, encode) == url.contents;
    }
  }

  /** The loop of AppendParams over the parameters, one name at a time. */
  method AppendParamList(url: StringBuilder, ps: seq<(string, string)>, finishedParams: NameSet, hasQuery: bool, encode: string -> string)
    returns (r: bool)
    modifies url, finishedParams
    ensures var added := FirstUnseen(ps, old(finishedParams.elements));
      && url.contents == old(url.contents) + Rendered(added, hasQuery, encode)
      && finishedParams.elements == old(finishedParams.elements) + Names(ps)
      && r == (hasQuery || |added| > 0)
  {
    r := hasQuery;
    ghost var seen := finishedParams.elements;
    ghost var start := url.contents;
    ghost var added: seq<(string, string)> := [];
    ghost var total := FirstUnseen(ps, seen);
    var i := 0;
    assert ps[0..] == ps;
    assert ps[..0] == [];
    while i < |ps|
      invariant 0 <= i <= |ps|
      invariant finishedParams.elements == seen + Names(ps[..i])
      invariant added + FirstUnseen(ps[i..], finishedParams.elements) == total
      invariant url.contents == start + Rendered(added, hasQuery, encode)
      invariant r == (hasQuery || |added| > 0)
    {
      r, added := AppendParamAt(url, ps, i, finishedParams, r, hasQuery, encode, seen, start, added, total);
      i := i + 1;
    }
    assert ps[|ps|..] == [];
    assert FirstUnseen(ps[i..], finishedParams.elements) == [];
    assert added == total;
    assert ps[..|ps|] == ps;
  }

  /** One iteration of AppendParams: the name at i is written unless already in the URL. */
  method AppendParamAt(url: StringBuilder, ps: seq<(string, string)>, i: nat, finishedParams: NameSet, r: bool,
                       hasQuery: bool, encode: string -> string, ghost seen: set<string>, ghost start: string,
                       ghost added: seq<(string, string)>, ghost total: seq<(string, string)>)
    returns (r': bool, ghost added': seq<(string, string)>)
    requires i < |ps|
    requires finishedParams.elements == seen + Names(ps[..i])
    requires added + FirstUnseen(ps[i..], finishedParams.elements) == total
    requires url.contents == start + Rendered(added, hasQuery, encode)
    requires r == (hasQuery || |added| > 0)
    modifies url, finishedParams
    ensures finishedParams.elements == seen + Names(ps[..i + 1])
    ensures added' + FirstUnseen(ps[i + 1..], finishedParams.elements) == total
    ensures url.contents == start + Rendered(added', hasQuery, encode)
    ensures r' == (hasQuery || |added'| > 0)
  {
    ghost var finished := finishedParams.elements;
    AppendParamsStep(ps, i, finished, added, total, hasQuery, encode);
    r' := AppendNewParam(url, ps[i].0, ps[i].1, finishedParams, r, encode);
    added' := if ps[i].0 in finished then added else added + [ps[i]];
  }

  /** What one more iteration of AppendParams adds to the names and to the pairs written. */
  lemma AppendParamsStep(ps: seq<(string, string)>, i: nat, finished: set<string>, added: seq<(string, string)>, total: seq<(string, string)>,
                         hasQuery: bool, encode: string -> string)
    requires i < |ps|
    requires added + FirstUnseen(ps[i..], finished) == total
    ensures Names(ps[..i + 1]) == Names(ps[..i]) + {ps[i].0}
    ensures ps[i].0 in finished ==> added + FirstUnseen(ps[i + 1..], finished + {ps[i].0}) == total
    ensures ps[i].0 !in finished ==> (added + [ps[i]]) + FirstUnseen(ps[i + 1..], finished + {ps[i].0}) == total
    ensures Rendered(added + [ps[i]], hasQuery, encode)
      == Rendered(added, hasQuery, encode) + EncodedPair(ps[i].0, ps[i].1, hasQuery || |added| > 0, encode)
  {
    assert ps[..i + 1] == ps[..i] + [ps[i]];
    NamesSnoc(ps[..i], ps[i]);
    FirstUnseenAt(ps, i, finished);
    var rest := FirstUnseen(ps[i + 1..], finished + {ps[i].0});
    if ps[i].0 !in finished {
      assert added + ([ps[i]] + rest) == (added + [ps[i]]) + rest;
    }
    RenderedSnoc(added, ps[i], hasQuery, encode);
  }

  /** The filter at position i: the pair there is written unless its name is finished. */
  lemma FirstUnseenAt(ps: seq<(string, string)>, i: nat, finished: set<string>)
    requires i < |ps|
    ensures ps[i].0 in finished ==> FirstUnseen(ps[i..], finished) == FirstUnseen(ps[i + 1..], finished + {ps[i].0})
    ensures ps[i].0 !in finished ==> FirstUnseen(ps[i..], finished) == [ps[i]] + FirstUnseen(ps[i + 1..], finished + {ps[i].0})
  {
    assert ps[i..][0] == ps[i];
    assert ps[i..][1..] == ps[i + 1..];
    if ps[i].0 in finished {
      assert finished + {ps[i].0} == finished;
    }
  }

  /** The written pairs are first occurrences, with names new to the URL and pairwise distinct. */
  lemma {:induction false} FirstUnseenFirstOccurrences(ps: seq<(string, string)>, seen: set<string>)
    ensures forall k :: 0 <= k < |FirstUnseen(ps, seen)| ==> FirstUnseen(ps, seen)[k].0 !in seen
    ensures forall k, l :: 0 <= k < l < |FirstUnseen(ps, seen)| ==> FirstUnseen(ps, seen)[k].0 != FirstUnseen(ps, seen)[l].0
    ensures forall k :: 0 <= k < |FirstUnseen(ps, seen)| ==> FirstOccurrence(ps, FirstUnseen(ps, seen)[k])
    decreases |ps|
  {
    if ps != [] {
      var head := ps[0];
      var tail := ps[1..];
      if head.0 in seen {
        FirstUnseenFirstOccurrences(tail, seen);
        var added := FirstUnseen(tail, seen);
        assert ps == [head] + tail;
        forall k | 0 <= k < |added| ensures FirstOccurrence(ps, added[k]) {
          assert added[k].0 != head.0;
          FirstOccurrenceCons(head, tail, added[k]);
        }
      } else {
        var seen' := seen + {head.0};
        FirstUnseenFirstOccurrences(tail, seen');
        var rest := FirstUnseen(tail, seen');
        var added := [head] + rest;
        assert ps == [head] + tail;
        assert FirstUnseen(ps, seen) == added;
        forall k | 0 <= k < |rest| ensures FirstOccurrence(ps, rest[k]) {
          assert rest[k].0 != head.0;
          FirstOccurrenceCons(head, tail, rest[k]);
        }
        assert FirstOccurrence(ps, head) by {
          assert ps[0] == head;
        }
        forall k | 0 <= k < |added| ensures added[k].0 !in seen && FirstOccurrence(ps, added[k]) {
          if k > 0 { assert added[k] == rest[k - 1]; }
        }
        forall k, l | 0 <= k < l < |added| ensures added[k].0 != added[l].0 {
          assert added[l] == rest[l - 1];
          if k > 0 { assert added[k] == rest[k - 1]; }
        }
      }
    }
  }

  /** p occurs in ps at a position that no earlier pair with the same name precedes. */
  ghost predicate FirstOccurrence(ps: seq<(string, string)>, p: (string, string))
  {
    exists i :: 0 <= i < |ps| && ps[i] == p && forall j :: 0 <= j < i ==> ps[j].0 != p.0
  }

  lemma FirstOccurrenceCons(q: (string, string), ps: seq<(string, string)>, p: (string, string))
    requires FirstOccurrence(ps, p) && q.0 != p.0
    ensures FirstOccurrence([q] + ps, p)
  {
    var i :| 0 <= i < |ps| && ps[i] == p && forall j :: 0 <= j < i ==> ps[j].0 != p.0;
    var qs := [q] + ps;
    assert qs[i + 1] == p;
    forall j | 0 <= j < i + 1 ensures qs[j].0 != p.0 {
      if j > 0 { assert qs[j] == ps[j - 1]; }
    }
  }

  /** The names written are exactly the names of ps not seen before. */
  lemma {:induction false} FirstUnseenNames(ps: seq<(string, string)>, seen: set<string>)
    ensures Names(FirstUnseen(ps, seen)) == Names(ps) - seen
    decreases |ps|
  {
    if ps != [] {
      var head := ps[0];
      var tail := ps[1..];
      assert ps == [head] + tail;
      NamesAppend([head], tail);
      if head.0 in seen {
        FirstUnseenNames(tail, seen);
      } else {
        FirstUnseenNames(tail, seen + {head.0});
        NamesAppend([head], FirstUnseen(tail, seen + {head.0}));
      }
    }
  }

  /** Writing ps then qs renders as writing the concatenation. */
  lemma {:induction false} RenderedAppend(ps: seq<(string, string)>, qs: seq<(string, string)>, hasQuery: bool, encode: string -> string)
    ensures Rendered(ps + qs, hasQuery, encode) == Rendered(ps, hasQuery, encode) + Rendered(qs, hasQuery || |ps| > 0, encode)
    decreases |ps|
  {
    if ps == [] {
      assert ps + qs == qs;
    } else {
      assert (ps + qs)[0] == ps[0];
      assert (ps + qs)[1..] == ps[1..] + qs;
      RenderedAppend(ps[1..], qs, true, encode);
    }
  }

  lemma {:induction false} NamesAppend(ps: seq<(string, string)>, qs: seq<(string, string)>)
    ensures Names(ps + qs) == Names(ps) + Names(qs)
    decreases |qs|
  {
    if qs == [] {
      assert ps + qs == ps;
    } else {
      var init := qs[..|qs| - 1];
      var last := qs[|qs| - 1];
      assert qs == init + [last];
      assert ps + qs == (ps + init) + [last];
      NamesSnoc(ps + init, last);
      NamesSnoc(init, last);
      NamesAppend(ps, init);
    }
  }

  /** Filtering ps then qs, the second pass seeing the first's names, equals filtering the concatenation. */
  lemma {:induction false} FirstUnseenAppend(ps: seq<(string, string)>, qs: seq<(string, string)>, seen: set<string>)
    ensures FirstUnseen(ps + qs, seen) == FirstUnseen(ps, seen) + FirstUnseen(qs, seen + Names(ps))
    decreases |ps|
  {
    if ps == [] {
      assert ps + qs == qs;
      assert seen + Names(ps) == seen;
    } else {
      var head := ps[0];
      var tail := ps[1..];
      assert ps == [head] + tail;
      assert (ps + qs)[0] == head;
      assert (ps + qs)[1..] == tail + qs;
      NamesAppend([head], tail);
      if head.0 in seen {
        FirstUnseenAppend(tail, qs, seen);
        assert seen + Names(ps) == seen + Names(tail);
      } else {
        FirstUnseenAppend(tail, qs, seen + {head.0});
        assert seen + Names(ps) == (seen + {head.0}) + Names(tail);
      }
    }
  }

  /**
   * Two successive AppendParams calls sharing finishedParams write what one
   * call over both lists would: the first value of every name wins, across
   * calls as within one.
   */
  lemma SuccessiveAppendParams(ps: seq<(string, string)>, qs: seq<(string, string)>, seen: set<string>, hasQuery: bool, encode: string -> string)
    ensures var first := FirstUnseen(ps, seen);
      var second := FirstUnseen(qs, seen + Names(ps));
      Rendered(first, hasQuery, encode) + Rendered(second, hasQuery || |first| > 0, encode)
        == Rendered(FirstUnseen(ps + qs, seen), hasQuery, encode)
  {
    FirstUnseenAppend(ps, qs, seen);
    RenderedAppend(FirstUnseen(ps, seen), FirstUnseen(qs, seen + Names(ps)), hasQuery, encode);
  }
}
