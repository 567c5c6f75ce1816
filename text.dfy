/**
  Character classes and the small string operations of Python's `str` that the
  assistant relies on: `lower`, `strip`, `split()` and the `in` substring test.

  Characters are classified as in ASCII: `IsSpace` is `str.isspace` and
  `IsAlnum` is `str.isalnum` on the first 128 code points, and `Lower` changes
  only `A`-`Z`. Code points above 127 count as neither whitespace nor
  alphanumeric and have no case.
*/
module Text {

  type String = seq<char>

  /** Python's `str.isspace` on ASCII: blank, tab, line feed, vertical tab, form feed, carriage return, and the four separators U+001C-U+001F. */
  predicate IsSpace(c: char) {
    c == ' ' || '\t' <= c <= '\r' || '\U{1C}' <= c <= '\U{1F}'
  }

  /** Python's `str.isalnum` on ASCII. */
  predicate IsAlnum(c: char) {
    '0' <= c <= '9' || 'a' <= c <= 'z' || 'A' <= c <= 'Z'
  }

  /** An upper-case letter that `lower` changes. */
  predicate IsUpper(c: char) {
    'A' <= c <= 'Z'
  }

  /** Python's `str.lower` on one character. */
  function Lower(c: char): (r: char)
    ensures IsAlnum(r) <==> IsAlnum(c)
    ensures IsSpace(r) <==> IsSpace(c)
    ensures !IsUpper(r)
    ensures !IsUpper(c) ==> r == c
  {
    if IsUpper(c) then (c as int + 32) as char else c
  }

  /** Python's `str.lower`. */
  function LowerStr(s: String): (r: String)
    ensures |r| == |s|
    ensures forall i :: 0 <= i < |s| ==> r[i] == Lower(s[i])
  {
    seq(|s|, i requires 0 <= i < |s| => Lower(s[i]))
  }

  /** Python's `str.lstrip()`: the suffix left after dropping leading whitespace. */
  function TrimLeft(s: String): (r: String)
    ensures |r| <= |s| && r == s[|s| - |r|..]
    ensures forall i :: 0 <= i < |s| - |r| ==> IsSpace(s[i])
    ensures r == [] || !IsSpace(r[0])
  {
    if s != [] && IsSpace(s[0]) then TrimLeft(s[1..]) else s
  }

  /** Python's `str.rstrip()`: the prefix left after dropping trailing whitespace. */
  function TrimRight(s: String): (r: String)
    ensures |r| <= |s| && r == s[..|r|]
    ensures forall i :: |r| <= i < |s| ==> IsSpace(s[i])
    ensures r == [] || !IsSpace(r[|r| - 1])
  {
    if s != [] && IsSpace(s[|s| - 1]) then TrimRight(s[..|s| - 1]) else s
  }

  /** `w` holds only whitespace. */
  predicate Blank(w: String) {
    forall i :: 0 <= i < |w| ==> IsSpace(w[i])
  }

  /** Python's `str.strip()`. */
  function Strip(s: String): (r: String)
    ensures r == [] || (!IsSpace(r[0]) && !IsSpace(r[|r| - 1]))
    ensures |s| - |TrimLeft(s)| + |r| <= |s| && r == s[|s| - |TrimLeft(s)|..|s| - |TrimLeft(s)| + |r|]
  {
    TrimRight(TrimLeft(s))
  }

  /**
    `str.strip()` removes only whitespace: everything before and after the
    slice it returns is whitespace, and an empty result means the whole text was.
  */
  lemma StripDropsOnlyWhitespace(s: String)
    ensures var k := |s| - |TrimLeft(s)|; k + |Strip(s)| <= |s| && Blank(s[..k]) && Blank(s[k + |Strip(s)|..])
    ensures Strip(s) == [] ==> Blank(s)
  {
    var t := TrimLeft(s);
    var r := TrimRight(t);
    var k := |s| - |t|;
    assert Blank(s[..k]);
    forall i | k + |r| <= i < |s|
      ensures IsSpace(s[i])
    {
      assert s[i] == t[i - k];
    }
    assert Blank(s[k + |r|..]);
    if r == [] {
      assert Blank(s);
    }
  }

  /** No two spaces in a row. */
  predicate SingleSpaced(s: String) {
    forall i :: 0 <= i < |s| - 1 ==> !(s[i] == ' ' && s[i + 1] == ' ')
  }

  /** `w` holds no whitespace. */
  predicate NoSpace(w: String) {
    forall i :: 0 <= i < |w| ==> !IsSpace(w[i])
  }

  /** The length of the longest prefix of `s` holding no whitespace. */
  function WordLength(s: String): (n: nat)
    ensures n <= |s| && NoSpace(s[..n])
    ensures n == |s| || IsSpace(s[n])
  {
    if s != [] && !IsSpace(s[0]) then 1 + WordLength(s[1..]) else 0
  }

  /** Python's `str.split()` with no separator: the maximal runs of non-whitespace, in order. */
  function Split(s: String): seq<String>
    decreases |s|
  {
    var t := TrimLeft(s);
    if t == [] then []
    else
      var n := WordLength(t);
      [t[..n]] + Split(t[n..])
  }

  /** `sub` is a prefix of `s`. */
  predicate HasPrefix(s: String, sub: String) {
    |sub| <= |s| && s[..|sub|] == sub
  }

  /** Python's `sub in s`. */
  predicate Contains(s: String, sub: String)
    decreases |s|
  {
    HasPrefix(s, sub) || (s != [] && Contains(s[1..], sub))
  }

  /** Whitespace in front of text does not change its words. */
  lemma SplitSkipsSpace(c: char, rest: String)
    requires IsSpace(c)
    ensures Split([c] + rest) == Split(rest)
  {
    assert ([c] + rest)[1..] == rest;
  }

  /** A word with no whitespace in it is its own single word. */
  lemma SplitWord(w: String)
    requires w != [] && NoSpace(w)
    ensures Split(w) == [w]
  {
    WordLengthOfWord(w, []);
    assert w + [] == w;
  }

  /** A word followed by whitespace is the first word; the words of the rest follow. */
  lemma SplitWordThen(w: String, c: char, rest: String)
    requires w != [] && NoSpace(w) && IsSpace(c)
    ensures Split(w + [c] + rest) == [w] + Split(rest)
  {
    var t := w + [c] + rest;
    WordLengthOfWord(w, [c] + rest);
    assert t == w + ([c] + rest);
    assert t[..|w|] == w && t[|w|..] == [c] + rest;
    SplitSkipsSpace(c, rest);
  }

  /** `WordLength` stops exactly at the end of a whitespace-free word. */
  lemma {:induction false} WordLengthOfWord(w: String, rest: String)
    requires NoSpace(w)
    requires rest == [] || IsSpace(rest[0])
    ensures WordLength(w + rest) == |w|
  {
    if w != [] {
      assert (w + rest)[1..] == w[1..] + rest;
      WordLengthOfWord(w[1..], rest);
    } else {
      assert w + rest == rest;
    }
  }

  /**
    Whitespace between two texts separates their words: the words of `x + [c] + y`
    are those of `x` followed by those of `y`, when `x` does not end inside a
    run of whitespace that could merge with `c`.
  */
  lemma {:induction false} SplitAppend(x: String, c: char, y: String)
    requires IsSpace(c)
    requires x == [] || !IsSpace(x[|x| - 1])
    ensures Split(x + [c] + y) == Split(x) + Split(y)
    decreases |x|
  {
    if x == [] {
      assert x + [c] + y == [c] + y;
      SplitSkipsSpace(c, y);
      assert Split(x) == [];
      assert Split(x) + Split(y) == Split(y);
    } else if IsSpace(x[0]) {
      assert x + [c] + y == [x[0]] + (x[1..] + [c] + y);
      assert x == [x[0]] + x[1..];
      SplitSkipsSpace(x[0], x[1..] + [c] + y);
      SplitSkipsSpace(x[0], x[1..]);
      SplitAppend(x[1..], c, y);
      assert Split(x + [c] + y) == Split(x) + Split(y);
    } else {
      var n := WordLength(x);
      var w := x[..n];
      if n == |x| {
        assert w == x;
        SplitWordThen(x, c, y);
        SplitWord(x);
        assert Split(x + [c] + y) == Split(x) + Split(y);
      } else {
        var tail := x[n..];
        assert x == w + tail;
        assert x + [c] + y == w + (tail + [c] + y);
        WordLengthOfWord(w, tail + [c] + y);
        assert (x + [c] + y)[..n] == w && (x + [c] + y)[n..] == tail + [c] + y;
        SplitAppend(tail, c, y);
        assert Split(x) == [w] + Split(tail);
        assert Split(x + [c] + y) == [w] + Split(tail + [c] + y);
        var st, sy := Split(tail), Split(y);
        AppendAssoc([w], st, sy);
      }
    }
  }

  /** `w` holds no upper-case letter. */
  predicate NoUpper(w: String) {
    forall i :: 0 <= i < |w| ==> !IsUpper(w[i])
  }

  /** The words of a text without upper-case letters have none either. */
  lemma {:induction false} SplitNoUpper(s: String)
    requires NoUpper(s)
    ensures forall k :: 0 <= k < |Split(s)| ==> NoUpper(Split(s)[k])
    decreases |s|
  {
    var t := TrimLeft(s);
    if t != [] {
      var n := WordLength(t);
      var w, rest := t[..n], Split(t[n..]);
      assert NoUpper(w) && NoUpper(t[n..]) by {
        SliceNoUpper(s, |s| - |t|, |s|);
        assert t == s[|s| - |t|..|s|];
        SliceNoUpper(t, 0, n);
        SliceNoUpper(t, n, |t|);
        assert t[0..n] == w && t[n..|t|] == t[n..];
      }
      assert forall k :: 0 <= k < |rest| ==> NoUpper(rest[k]) by {
        SplitNoUpper(t[n..]);
      }
      assert Split(s) == [w] + rest;
      ConsNoUpper(w, rest);
    }
  }

  lemma SliceNoUpper(s: String, lo: nat, hi: nat)
    requires lo <= hi <= |s| && NoUpper(s)
    ensures NoUpper(s[lo..hi])
  {
    assert forall i :: 0 <= i < hi - lo ==> s[lo..hi][i] == s[lo + i];
  }

  lemma ConsNoUpper(w: String, rest: seq<String>)
    requires NoUpper(w) && forall k :: 0 <= k < |rest| ==> NoUpper(rest[k])
    ensures forall k :: 0 <= k < |[w] + rest| ==> NoUpper(([w] + rest)[k])
  {
  }

  lemma AppendAssoc<T>(a: seq<T>, b: seq<T>, c: seq<T>)
    ensures a + (b + c) == (a + b) + c
  {
  }

  lemma PrefixOfAppend<T>(a: seq<T>, b: seq<T>)
    ensures (a + b)[..|a|] == a
  {
  }

  lemma LastDiffers<T>(a: seq<T>, x: T, y: T)
    requires x != y
    ensures (a + [x])[..|a + [y]|] != a + [y]
  {
    assert (a + [x])[|a|] != (a + [y])[|a|];
  }
}
