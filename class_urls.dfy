/**
 * URLs named by page class: a string "Class?params#fragment" is split into
 * its class name, its already-encoded parameters and its fragment, and the
 * page URL of the class gets the parameters and the fragment.
 */
module ClassUrls {
  import opened Wrappers
  import opened JavaStrings

  /** Where the path part of a URL ends: at its first '?' or '#', else at its length. */
  function PathEnd(s: string): (pos: nat)
    ensures pos <= |s|
    ensures forall i :: 0 <= i < pos ==> s[i] != '?' && s[i] != '#'
    ensures pos < |s| ==> s[pos] == '?' || s[pos] == '#'
    decreases |s|
  {
    if s == [] then 0
    else if s[0] == '?' || s[0] == '#' then 0
    else 1 + PathEnd(s[1..])
  }

  /** The three parts of a class URL; None where the string has no such part. */
  datatype ClassUrl = ClassUrl(className: string, params: Option<string>, fragment: Option<string>)

  /** A class name holds no '?' or '#', and parameters hold no '#'. */
  predicate WellFormed(c: ClassUrl)
  {
    && '?' !in c.className && '#' !in c.className
    && (c.params.Some? ==> '#' !in c.params.value)
  }

  /** The string the parts come from, with their '?' and '#' put back. */
  function Joined(c: ClassUrl): string
  {
    c.className
      + (if c.params.Some? then "?" + c.params.value else "")
      + (if c.fragment.Some? then "#" + c.fragment.value else "")
  }

  /**
   * Splits at the end of the path: a '?' starts the parameters, which run
   * to the next '#'; a '#' starts the fragment, which runs to the end.
   */
  function SplitClassUrl(s: string): (r: ClassUrl)
    ensures WellFormed(r)
    ensures Joined(r) == s
  {
    var pos := PathEnd(s);
    if pos >= |s| then
      SplitWhole(s);
      ClassUrl(s, None, None)
    else if s[pos] == '?' then
      var hashPos := IndexOf(s, '#', pos + 1);
      if hashPos == -1 then
        SplitParams(s, pos);
        ClassUrl(s[..pos], Some(s[pos + 1..]), None)
      else
        SplitParamsFragment(s, pos, hashPos);
        ClassUrl(s[..pos], Some(s[pos + 1..hashPos]), Some(s[hashPos + 1..]))
    else
      SplitFragment(s, pos);
      ClassUrl(s[..pos], None, Some(s[pos + 1..]))
  }

  /** No character of s[from..to] is c. */
  lemma NotInSlice(s: string, c: char, from: nat, to: nat)
    requires from <= to <= |s|
    requires forall j :: from <= j < to ==> s[j] != c
    ensures c !in s[from..to]
  {
    var t := s[from..to];
    forall k | 0 <= k < |t| ensures t[k] != c {
      assert t[k] == s[from + k];
    }
  }

  lemma SplitWhole(s: string)
    requires forall j :: 0 <= j < |s| ==> s[j] != '?' && s[j] != '#'
    ensures var r := ClassUrl(s, None, None); WellFormed(r) && Joined(r) == s
  {
    NotInSlice(s, '?', 0, |s|);
    NotInSlice(s, '#', 0, |s|);
    assert s[0..|s|] == s;
  }

  lemma SplitParams(s: string, pos: nat)
    requires pos < |s| && s[pos] == '?'
    requires forall j :: 0 <= j < pos ==> s[j] != '?' && s[j] != '#'
    requires forall j :: pos + 1 <= j < |s| ==> s[j] != '#'
    ensures var r := ClassUrl(s[..pos], Some(s[pos + 1..]), None); WellFormed(r) && Joined(r) == s
  {
    NotInSlice(s, '?', 0, pos);
    NotInSlice(s, '#', 0, pos);
    NotInSlice(s, '#', pos + 1, |s|);
    assert s[0..pos] == s[..pos];
    assert s[pos + 1..|s|] == s[pos + 1..];
    assert s == s[..pos] + "?" + s[pos + 1..];
  }

  lemma SplitParamsFragment(s: string, pos: nat, hashPos: int)
    requires pos < hashPos < |s| && s[pos] == '?' && s[hashPos] == '#'
    requires forall j :: 0 <= j < pos ==> s[j] != '?' && s[j] != '#'
    requires forall j :: pos + 1 <= j < hashPos ==> s[j] != '#'
    ensures var r := ClassUrl(s[..pos], Some(s[pos + 1..hashPos]), Some(s[hashPos + 1..])); WellFormed(r) && Joined(r) == s
  {
    NotInSlice(s, '?', 0, pos);
    NotInSlice(s, '#', 0, pos);
    NotInSlice(s, '#', pos + 1, hashPos);
    assert s[0..pos] == s[..pos];
    assert s[pos + 1..] == s[pos + 1..hashPos] + "#" + s[hashPos + 1..];
    assert s == s[..pos] + "?" + s[pos + 1..];
  }

  lemma SplitFragment(s: string, pos: nat)
    requires pos < |s| && s[pos] == '#'
    requires forall j :: 0 <= j < pos ==> s[j] != '?' && s[j] != '#'
    ensures var r := ClassUrl(s[..pos], None, Some(s[pos + 1..])); WellFormed(r) && Joined(r) == s
  {
    NotInSlice(s, '?', 0, pos);
    NotInSlice(s, '#', 0, pos);
    assert s[0..pos] == s[..pos];
    assert s == s[..pos] + "#" + s[pos + 1..];
  }

  /** Splitting the joined parts gives the parts back. */
  lemma SplitJoined(c: ClassUrl)
    requires WellFormed(c)
    ensures SplitClassUrl(Joined(c)) == c
  {
    var cn := c.className;
    match (c.params, c.fragment)
    case (None, None) =>
      assert Joined(c) == cn;
      JoinedWhole(cn);
    case (Some(q), None) =>
      assert Joined(c) == cn + "?" + q;
      JoinedParams(cn, q);
    case (Some(q), Some(f)) =>
      assert Joined(c) == cn + "?" + q + "#" + f;
      JoinedParamsFragment(cn, q, f);
    case (None, Some(f)) =>
      assert Joined(c) == cn + "#" + f;
      JoinedFragment(cn, f);
  }

  lemma JoinedWhole(cn: string)
    requires '?' !in cn && '#' !in cn
    ensures SplitClassUrl(cn) == ClassUrl(cn, None, None)
  {
    PathEndAt(cn, |cn|);
  }

  lemma JoinedParams(cn: string, q: string)
    requires '?' !in cn && '#' !in cn && '#' !in q
    ensures SplitClassUrl(cn + "?" + q) == ClassUrl(cn, Some(q), None)
  {
    var s := cn + "?" + q;
    var n := |cn|;
    forall j | 0 <= j < n ensures s[j] == cn[j] { }
    PathEndAt(s, n);
    forall j | n + 1 <= j < |s| ensures s[j] == q[j - n - 1] { }
    IndexOfNone(s, '#', n + 1);
    assert s[..n] == cn;
    assert s[n + 1..] == q;
  }

  lemma JoinedParamsFragment(cn: string, q: string, f: string)
    requires '?' !in cn && '#' !in cn && '#' !in q
    ensures SplitClassUrl(cn + "?" + q + "#" + f) == ClassUrl(cn, Some(q), Some(f))
  {
    var s := cn + "?" + q + "#" + f;
    var n := |cn|;
    var h := n + 1 + |q|;
    forall j | 0 <= j < n ensures s[j] == cn[j] { }
    PathEndAt(s, n);
    forall j | n + 1 <= j < h ensures s[j] == q[j - n - 1] { }
    IndexOfAt(s, '#', n + 1, h);
    assert s[..n] == cn;
    assert s[n + 1..h] == q;
    assert s[h + 1..] == f;
  }

  lemma JoinedFragment(cn: string, f: string)
    requires '?' !in cn && '#' !in cn
    ensures SplitClassUrl(cn + "#" + f) == ClassUrl(cn, None, Some(f))
  {
    var s := cn + "#" + f;
    var n := |cn|;
    forall j | 0 <= j < n ensures s[j] == cn[j] { }
    PathEndAt(s, n);
    assert s[..n] == cn;
    assert s[n + 1..] == f;
  }

  /** PathEnd finds the first '?' or '#'. */
  lemma PathEndAt(s: string, n: nat)
    requires n <= |s|
    requires forall i :: 0 <= i < n ==> s[i] != '?' && s[i] != '#'
    requires n < |s| ==> s[n] == '?' || s[n] == '#'
    ensures PathEnd(s) == n
  {
  }

  lemma IndexOfAt(s: string, c: char, from: nat, n: nat)
    requires from <= n < |s| && s[n] == c
    requires forall j :: from <= j < n ==> s[j] != c
    ensures IndexOf(s, c, from) == n
  {
  }

  lemma IndexOfNone(s: string, c: char, from: nat)
    requires forall j :: from <= j < |s| ==> s[j] != c
    ensures IndexOf(s, c, from) == -1
  {
  }

  /** Empty parameters are passed on as no parameters at all. */
  function ParamsArgument(params: Option<string>): Option<string>
  {
    if params.None? || params.value == "" then None else params
  }

  /**
   * A URL, the ServletException raised when the named class cannot be
   * loaded, or the unchecked ClassCastException raised when it loads but is
   * not a page class.
   */
  datatype UrlResult = Url(url: string) | ClassNotFound(className: string) | NotAPage(className: string)

  /** The class loader as far as the URL methods see it: which names load, and which loaded classes are pages. */
  datatype Classes = Classes(loads: string -> bool, isPage: string -> bool)

  /**
   * The three-argument form as written: the page URL of the class with its
   * parameters, then the fragment text appended as it is. pageUrl is the URL
   * the framework gives a page class with its parameters.
   */
  function UrlForClassAsWritten(className: string, params: Option<string>, fragment: Option<string>,
                                classes: Classes, pageUrl: (string, Option<string>) -> string): UrlResult
  {
    if !classes.loads(className) then ClassNotFound(className)
    else if !classes.isPage(className) then NotAPage(className)
    else Url(pageUrl(className, params) + (if fragment.Some? then fragment.value else ""))
  }

  /** The one-argument form as written: split, then the three-argument form. */
  function UrlForStringAsWritten(s: string, classes: Classes, pageUrl: (string, Option<string>) -> string): UrlResult
  {
    var c := SplitClassUrl(s);
    UrlForClassAsWritten(c.className, ParamsArgument(c.params), c.fragment, classes, pageUrl)
  }

  /** The three-argument form with the fragment introduced by its '#'. */
  function UrlForClass(className: string, params: Option<string>, fragment: Option<string>,
                       classes: Classes, pageUrl: (string, Option<string>) -> string): UrlResult
  {
    if !classes.loads(className) then ClassNotFound(className)
    else if !classes.isPage(className) then NotAPage(className)
    else Url(pageUrl(className, params) + (if fragment.Some? then "#" + fragment.value else ""))
  }

  /** The one-argument form over the corrected three-argument form. */
  function UrlForString(s: string, classes: Classes, pageUrl: (string, Option<string>) -> string): UrlResult
  {
    var c := SplitClassUrl(s);
    UrlForClass(c.className, ParamsArgument(c.params), c.fragment, classes, pageUrl)
  }

  /** The fragment of a URL string with its '#': everything from the first '#' on, or nothing. */
  function FragmentSuffix(s: string): string
  {
    var h := IndexOf(s, '#', 0);
    if h == -1 then "" else s[h..]
  }

  /**
   * The corrected one-argument form ends the page URL with the string's own
   * fragment, '#' included. It fails with ClassNotFound exactly when the class
   * cannot be loaded, and with NotAPage exactly when it loads but is not a
   * page class.
   */
  lemma UrlForStringKeepsFragment(s: string, classes: Classes, pageUrl: (string, Option<string>) -> string)
    ensures var c := SplitClassUrl(s);
      && (UrlForString(s, classes, pageUrl).ClassNotFound? <==> !classes.loads(c.className))
      && (UrlForString(s, classes, pageUrl).NotAPage? <==> classes.loads(c.className) && !classes.isPage(c.className))
      && (classes.loads(c.className) && classes.isPage(c.className) ==>
            UrlForString(s, classes, pageUrl) == Url(pageUrl(c.className, ParamsArgument(c.params)) + FragmentSuffix(s)))
  {
    var c := SplitClassUrl(s);
    var n := |c.className|;
    var pos := PathEnd(s);
    assert pos == n;
    if c.fragment.Some? {
      var h := |s| - |c.fragment.value| - 1;
      assert s[h] == '#';
      assert forall j :: 0 <= j < h ==> s[j] != '#';
      IndexOfAt(s, '#', 0, h);
      assert s[h..] == "#" + c.fragment.value;
    } else {
      IndexOfNone(s, '#', 0);
    }
  }

  /**
   * As written, "Foo#top" yields the page URL of Foo followed by "top": the
   * '#' is stripped by the split and never put back. The corrected form
   * yields the page URL followed by "#top".
   */
  lemma FragmentLostAsWritten(classes: Classes, pageUrl: (string, Option<string>) -> string)
    requires classes.loads("Foo") && classes.isPage("Foo")
    ensures UrlForStringAsWritten("Foo#top", classes, pageUrl) == Url(pageUrl("Foo", None) + "top")
    ensures UrlForString("Foo#top", classes, pageUrl) == Url(pageUrl("Foo", None) + "#top")
    ensures FragmentSuffix("Foo#top") == "#top"
  {
    var s := "Foo#top";
    PathEndAt(s, 3);
    IndexOfAt(s, '#', 0, 3);
    assert s[..3] == "Foo";
    assert s[4..] == "top";
    assert s[3..] == "#top";
  }
}
