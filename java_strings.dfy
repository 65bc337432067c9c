/**
 * The few java.lang.String operations the framework relies on, over Dafny strings.
 * Case conversion covers the ASCII letters only.
 */
module JavaStrings {

  /** Character.toLowerCase restricted to 'A'..'Z'. */
  function LowerChar(c: char): char
  {
    if 'A' <= c <= 'Z' then (c as int + 32) as char else c
  }

  /** String.toLowerCase(Locale.ROOT), ASCII letters only. */
  function ToLower(s: string): (r: string)
    ensures |r| == |s|
    ensures forall i :: 0 <= i < |s| ==> r[i] == LowerChar(s[i])
  {
    seq(|s|, i requires 0 <= i < |s| => LowerChar(s[i]))
  }

  /** String.equalsIgnoreCase, ASCII letters only. */
  predicate EqualsIgnoreCase(a: string, b: string)
  {
    ToLower(a) == ToLower(b)
  }

  /** String.startsWith. */
  predicate StartsWith(s: string, prefix: string)
  {
    prefix <= s
  }

  /** String.contains. */
  predicate Contains(s: string, sub: string)
  {
    exists i :: 0 <= i <= |s| && sub <= s[i..]
  }

  /** Lower-casing commutes with taking a slice. */
  lemma ToLowerSlice(s: string, i: nat, j: nat)
    requires i <= j <= |s|
    ensures ToLower(s)[i..j] == ToLower(s[i..j])
  {
  }

  /** The |t| characters of s at i lower-case to t. */
  predicate LowersTo(s: string, i: int, t: string)
  {
    0 <= i <= |s| - |t| && ToLower(s[i..i + |t|]) == t
  }

  /**
   * The lower-cased s contains the word t exactly when some slice of s
   * lower-cases to t: the match ignores the case of s.
   */
  lemma ContainsLowered(s: string, t: string)
    ensures Contains(ToLower(s), t) <==> exists i :: LowersTo(s, i, t)
  {
    if Contains(ToLower(s), t) {
      var i :| 0 <= i <= |s| && t <= ToLower(s)[i..];
      ToLowerSlice(s, i, i + |t|);
      assert ToLower(s)[i..][..|t|] == ToLower(s)[i..i + |t|];
      assert LowersTo(s, i, t);
    }
    if exists i :: LowersTo(s, i, t) {
      var i :| LowersTo(s, i, t);
      ToLowerSlice(s, i, i + |t|);
      assert ToLower(s)[i..][..|t|] == ToLower(s)[i..i + |t|];
      assert t <= ToLower(s)[i..];
    }
  }

  /** String.lastIndexOf(char): the last position holding c, or -1. */
  function LastIndexOf(s: string, c: char): (r: int)
    ensures -1 <= r < |s|
    ensures r >= 0 ==> s[r] == c && forall j :: r < j < |s| ==> s[j] != c
    ensures r == -1 ==> forall j :: 0 <= j < |s| ==> s[j] != c
    decreases |s|
  {
    if |s| == 0 then -1
    else if s[|s| - 1] == c then |s| - 1
    else LastIndexOf(s[..|s| - 1], c)
  }

  /** String.indexOf(char, from): the first position at or after from holding c, or -1. */
  function IndexOf(s: string, c: char, from: nat): (r: int)
    ensures -1 <= r < |s|
    ensures r >= 0 ==> from <= r && s[r] == c && forall j :: from <= j < r ==> s[j] != c
    ensures r == -1 ==> forall j :: from <= j < |s| ==> s[j] != c
    decreases |s| - from
  {
    if from >= |s| then -1
    else if s[from] == c then from
    else IndexOf(s, c, from + 1)
  }

  /** The characters Words splits at: the six ASCII whitespace characters. */
  predicate IsWhitespace(c: char)
  {
    c == ' ' || c == '\t' || c == '\n' || c == '\r' || c == '\U{B}' || c == '\U{C}'
  }

  /** End of the word that starts at or before i: the first whitespace at or after i, or |s|. */
  function WordEnd(s: string, i: nat): (n: nat)
    requires i <= |s|
    ensures i <= n <= |s|
    ensures i < |s| && !IsWhitespace(s[i]) ==> i < n
    ensures forall j :: i <= j < n ==> !IsWhitespace(s[j])
    ensures n < |s| ==> IsWhitespace(s[n])
    decreases |s| - i
  {
    if i == |s| || IsWhitespace(s[i]) then i else WordEnd(s, i + 1)
  }

  /** The whitespace-separated words of s, empty words dropped; the split the type table's lines go through. */
  function Words(s: string): (ws: seq<string>)
    ensures forall k :: 0 <= k < |ws| ==> ws[k] != []
    ensures forall k, i :: 0 <= k < |ws| && 0 <= i < |ws[k]| ==> !IsWhitespace(ws[k][i])
    decreases |s|
  {
    if s == [] then []
    else if IsWhitespace(s[0]) then Words(s[1..])
    else
      var n := WordEnd(s, 0);
      var rest := Words(s[n..]);
      assert forall i :: 0 <= i < n ==> !IsWhitespace(s[..n][i]);
      [s[..n]] + rest
  }

  const INT_MIN: int := -0x8000_0000
  const INT_RANGE: int := 0x1_0000_0000

  /** A Java int: a 32-bit two's-complement value. */
  type Int32 = x: int | INT_MIN <= x < -INT_MIN

  /** Narrowing of an arbitrary integer to a Java int (wrap-around). */
  function ToInt32(x: int): (r: Int32)
    ensures (r - x) % INT_RANGE == 0
  {
    (x - INT_MIN) % INT_RANGE + INT_MIN
  }

  /** Java's unary minus on an int: wraps for Integer.MIN_VALUE. */
  function Negate(x: Int32): (r: Int32)
    ensures x != INT_MIN ==> r == -x
    ensures x == INT_MIN ==> r == INT_MIN
  {
    ToInt32(-(x as int))
  }

  /** String.hashCode: h = 31 * h + c over the characters, in int arithmetic. */
  function StringHash(s: string): Int32
    decreases |s|
  {
    if s == [] then 0
    else ToInt32(31 * StringHash(s[..|s| - 1]) + s[|s| - 1] as int)
  }
}
