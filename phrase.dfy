/**
  Phrase matching of the capture loop (chat.py:133-150): `norm_text` brings a
  recogniser result into a canonical form, `starts_with_phrase` tests whether its
  words begin with the words of a command phrase.
*/
module Phrase {
  import opened Text

  const WAKE_PHRASE: String := "hallo michaela"
  const SLEEP_PHRASE: String := "danke michaela"
  const EXIT_PHRASE: String := "kill switch aktivieren"

  /**
    The text appended by `norm_text`'s loop to `out` while it reads `s`, when the
    previous character read was whitespace exactly when `prevSpace` holds.
    Alphanumerics are kept, a whitespace character adds one space unless the
    previous one did, every other character is dropped and leaves `prevSpace` alone.
  */
  function Collapse(s: String, prevSpace: bool): (r: String)
    ensures |r| <= |s|
  {
    if s == [] then []
    else if IsAlnum(s[0]) then [s[0]] + Collapse(s[1..], false)
    else if IsSpace(s[0]) then
      (if prevSpace then Collapse(s[1..], true) else [' '] + Collapse(s[1..], true))
    else Collapse(s[1..], prevSpace)
  }

  /** `norm_text(s)`, as a value. */
  function Norm(s: String): String {
    Strip(Collapse(LowerStr(s), false))
  }

  /** A character `norm_text` can return: a lower-case alphanumeric or a plain space. */
  predicate NormChar(c: char) {
    (IsAlnum(c) && !IsUpper(c)) || c == ' '
  }

  /** The shape of every result of `norm_text`. */
  predicate Normal(s: String) {
    (forall i :: 0 <= i < |s| ==> NormChar(s[i]))
    && SingleSpaced(s)
    && (s == [] || (s[0] != ' ' && s[|s| - 1] != ' '))
  }

  /** What `Collapse` produces from lower-cased text. */
  lemma {:induction false} CollapseShape(s: String, prevSpace: bool)
    requires forall i :: 0 <= i < |s| ==> !IsUpper(s[i])
    ensures var r := Collapse(s, prevSpace);
      (forall i :: 0 <= i < |r| ==> NormChar(r[i]))
      && SingleSpaced(r)
      && (prevSpace && r != [] ==> r[0] != ' ')
  {
    if s != [] {
      CollapseShape(s[1..], IsSpace(s[0]) || (!IsAlnum(s[0]) && prevSpace));
    }
  }

  /** The result of `norm_text` holds only lower-case alphanumerics and single inner spaces. */
  lemma NormShape(s: String)
    ensures Normal(Norm(s))
  {
    var low := LowerStr(s);
    CollapseShape(low, false);
    StripShape(Collapse(low, false));
  }

  /** Trimming single-spaced normal characters leaves text in normal form. */
  lemma StripShape(c: String)
    requires forall i :: 0 <= i < |c| ==> NormChar(c[i])
    requires SingleSpaced(c)
    ensures Normal(Strip(c))
  {
    var r := Strip(c);
    var k := |c| - |TrimLeft(c)|;
    assert r == c[k..k + |r|];
    SliceKeepsShape(c, k, k + |r|);
  }

  /** A slice of single-spaced normal characters is again single-spaced normal characters. */
  lemma SliceKeepsShape(c: String, lo: nat, hi: nat)
    requires lo <= hi <= |c|
    requires forall i :: 0 <= i < |c| ==> NormChar(c[i])
    requires SingleSpaced(c)
    ensures forall i :: 0 <= i < hi - lo ==> NormChar(c[lo..hi][i])
    ensures SingleSpaced(c[lo..hi])
  {
    var r := c[lo..hi];
    forall i | 0 <= i < |r| - 1 ensures !(r[i] == ' ' && r[i + 1] == ' ') {
      assert r[i] == c[lo + i] && r[i + 1] == c[lo + i + 1];
    }
  }

  /** `Collapse` changes nothing in text that is already single-spaced and lower-case. */
  lemma {:induction false} CollapseNormal(s: String, prevSpace: bool)
    requires forall i :: 0 <= i < |s| ==> NormChar(s[i])
    requires SingleSpaced(s)
    requires prevSpace && s != [] ==> s[0] != ' '
    ensures Collapse(s, prevSpace) == s
  {
    if s != [] {
      CollapseNormal(s[1..], s[0] == ' ');
    }
  }

  /** Text already in normal form is its own normalisation. */
  lemma NormOfNormal(s: String)
    requires Normal(s)
    ensures Norm(s) == s
  {
    assert LowerStr(s) == s;
    CollapseNormal(s, false);
    assert s != [] ==> IsAlnum(s[0]) && IsAlnum(s[|s| - 1]);
    assert TrimLeft(s) == s;
    assert TrimRight(s) == s;
  }

  /** `norm_text(norm_text(s)) == norm_text(s)`. */
  lemma NormIdempotent(s: String)
    ensures Norm(Norm(s)) == Norm(s)
  {
    NormShape(s);
    NormOfNormal(Norm(s));
  }

  /** A character that is neither alphanumeric nor whitespace leaves `Collapse` as if it were absent. */
  lemma {:induction false} CollapseSkips(x: String, c: char, y: String, prevSpace: bool)
    requires !IsAlnum(c) && !IsSpace(c)
    ensures Collapse(x + [c] + y, prevSpace) == Collapse(x + y, prevSpace)
  {
    if x == [] {
      assert x + [c] + y == [c] + y && x + y == y;
      assert ([c] + y)[1..] == y;
    } else {
      assert (x + [c] + y)[1..] == x[1..] + [c] + y;
      assert (x + y)[1..] == x[1..] + y;
      CollapseSkips(x[1..], c, y, IsSpace(x[0]) || (!IsAlnum(x[0]) && prevSpace));
    }
  }

  /** Punctuation is deleted without putting a space in its place: "michaela!" and "micha-ela" lose the mark. */
  lemma NormDeletesPunctuation(x: String, c: char, y: String)
    requires !IsAlnum(c) && !IsSpace(c)
    ensures Norm(x + [c] + y) == Norm(x + y)
  {
    assert LowerStr(x + [c] + y) == LowerStr(x) + [c] + LowerStr(y);
    assert LowerStr(x + y) == LowerStr(x) + LowerStr(y);
    CollapseSkips(LowerStr(x), c, LowerStr(y), false);
  }

  /** `norm_text`: lower-case, keep alphanumerics, one space per whitespace run, drop the rest, trim. */
  method NormText(s: String) returns (r: String)
    ensures r == Norm(s)
    ensures Normal(r)
  {
    var low := LowerStr(s);
    var out: String := [];
    var prevSpace := false;
    var i := 0;
    while i < |low|
      invariant 0 <= i <= |low|
      invariant out + Collapse(low[i..], prevSpace) == Collapse(low, false)
    {
      var ch := low[i];
      var rest := low[i + 1..];
      assert low[i..] == [ch] + rest;
      if IsAlnum(ch) {
        assert Collapse(low[i..], prevSpace) == [ch] + Collapse(rest, false);
        assert out + [ch] + Collapse(rest, false) == out + ([ch] + Collapse(rest, false));
        out := out + [ch];
        prevSpace := false;
      } else if IsSpace(ch) {
        if !prevSpace {
          assert Collapse(low[i..], prevSpace) == [' '] + Collapse(rest, true);
          assert out + [' '] + Collapse(rest, true) == out + ([' '] + Collapse(rest, true));
          out := out + [' '];
          prevSpace := true;
        } else {
          assert Collapse(low[i..], prevSpace) == Collapse(rest, true);
        }
      } else {
        assert Collapse(low[i..], prevSpace) == Collapse(rest, prevSpace);
      }
      i := i + 1;
    }
    assert low[i..] == [] && out + [] == out;
    assert out == Collapse(low, false);
    r := Strip(out);
    NormShape(s);
  }

  /** `starts_with_phrase(text, phrase)`: the words of `phrase` begin the words of the normalised `text`. */
  predicate StartsWith(text: String, phrase: String) {
    var t := Split(Norm(text));
    var p := Split(phrase);
    |t| >= |p| && t[..|p|] == p
  }

  /** Normalising the text first changes nothing: the capture loop's second `norm_text` is harmless. */
  lemma StartsWithNormalised(text: String, phrase: String)
    ensures StartsWith(Norm(text), phrase) == StartsWith(text, phrase)
  {
    NormIdempotent(text);
  }

  /** A phrase with no words, the empty phrase among them, matches every text. */
  lemma EmptyPhraseMatches(text: String, phrase: String)
    requires forall i :: 0 <= i < |phrase| ==> IsSpace(phrase[i])
    ensures StartsWith(text, phrase)
  {
    assert TrimLeft(phrase) == [];
  }

  /** Reading a single-spaced, lower-case prefix that ends in an alphanumeric copies it and leaves `prevSpace` false. */
  lemma {:induction false} CollapseNormalPrefix(p: String, y: String, prevSpace: bool)
    requires p != [] && p[|p| - 1] != ' '
    requires forall i :: 0 <= i < |p| ==> NormChar(p[i])
    requires SingleSpaced(p)
    requires prevSpace ==> p[0] != ' '
    ensures Collapse(p + y, prevSpace) == p + Collapse(y, false)
  {
    assert (p + y)[1..] == p[1..] + y;
    if |p| > 1 {
      CollapseNormalPrefix(p[1..], y, p[0] == ' ');
    }
  }

  /** Trimming the right end of a concatenation only touches its second half, unless that is all whitespace. */
  lemma {:induction false} TrimRightAppend(a: String, b: String)
    requires TrimRight(b) != []
    ensures TrimRight(a + b) == a + TrimRight(b)
  {
    if IsSpace(b[|b| - 1]) {
      assert (a + b)[..|a + b| - 1] == a + b[..|b| - 1];
      TrimRightAppend(a, b[..|b| - 1]);
    }
  }

  /** After a normal phrase and a space, `norm_text` goes on as after whitespace. */
  lemma NormPhraseThen(p: String, rest: String)
    requires Normal(p) && p != []
    ensures Norm(p + [' '] + rest) == Strip(p + [' '] + Collapse(LowerStr(rest), true))
  {
    var lr := LowerStr(rest);
    assert LowerStr(p + [' '] + rest) == p + ([' '] + lr) by {
      LowerNormalThen(p, rest);
    }
    assert Collapse(p + ([' '] + lr), false) == p + Collapse([' '] + lr, false) by {
      CollapseNormalPrefix(p, [' '] + lr, false);
    }
    assert Collapse([' '] + lr, false) == [' '] + Collapse(lr, true) by {
      assert ([' '] + lr)[1..] == lr;
    }
    AppendAssoc(p, [' '], Collapse(lr, true));
  }

  /** Lower-casing leaves a normal phrase and a space alone. */
  lemma LowerNormalThen(p: String, rest: String)
    requires Normal(p)
    ensures LowerStr(p + [' '] + rest) == p + ([' '] + LowerStr(rest))
  {
    var a, b := LowerStr(p + [' '] + rest), p + ([' '] + LowerStr(rest));
    forall i | 0 <= i < |a| ensures a[i] == b[i] {
      if i < |p| {
        assert (p + [' '] + rest)[i] == p[i];
      } else if i > |p| {
        assert (p + [' '] + rest)[i] == rest[i - |p| - 1];
      }
    }
  }

  /** Trimming a normal phrase, a space and text that starts with an alphanumeric. */
  lemma StripPhraseThen(p: String, c: String)
    requires Normal(p) && p != []
    requires c == [] || IsAlnum(c[0])
    ensures TrimRight(c) == [] ==> Strip(p + [' '] + c) == p
    ensures TrimRight(c) != [] ==> Strip(p + [' '] + c) == p + [' '] + TrimRight(c)
  {
    var whole := p + [' '] + c;
    assert TrimLeft(whole) == whole by {
      assert IsAlnum(p[0]) && whole[0] == p[0];
    }
    if TrimRight(c) == [] {
      assert whole == p + [' '] by {
        BlankStartsWithNoAlnum(c);
      }
      TrimRightPhraseSpace(p);
    } else {
      TrimRightAppend(p + [' '], c);
    }
  }

  lemma BlankStartsWithNoAlnum(c: String)
    requires TrimRight(c) == [] && (c == [] || IsAlnum(c[0]))
    ensures c == []
  {
  }

  /** A trailing space after a normal phrase is trimmed. */
  lemma TrimRightPhraseSpace(p: String)
    requires Normal(p) && p != []
    ensures TrimRight(p + [' ']) == p
  {
    var w := p + [' '];
    assert w[..|w| - 1] == p;
    assert IsAlnum(p[|p| - 1]);
    assert TrimRight(p) == p;
  }

  /** The words of a normal-form phrase, a blank and collapsed text: the phrase's words, then those of the text. */
  lemma SplitPhraseThenCollapsed(p: String, c: String)
    requires Normal(p) && p != []
    requires c == [] || IsAlnum(c[0])
    ensures Split(Strip(p + [' '] + c)) == Split(p) + Split(TrimRight(c))
  {
    StripPhraseThen(p, c);
    var c' := TrimRight(c);
    if c' == [] {
      assert Strip(p + [' '] + c) == p;
      assert Split(p) + Split(c') == Split(p);
    } else {
      assert Strip(p + [' '] + c) == p + [' '] + c';
      assert IsAlnum(p[|p| - 1]);
      SplitAppend(p, ' ', c');
    }
  }

  /** The words of a normal-form phrase, a blank and any text: the phrase's words, then those of the text. */
  lemma SplitPhraseThen(p: String, rest: String)
    requires Normal(p) && p != []
    ensures Split(Norm(p + [' '] + rest)) == Split(p) + Split(TrimRight(Collapse(LowerStr(rest), true)))
  {
    var c := Collapse(LowerStr(rest), true);
    CollapseShape(LowerStr(rest), true);
    NormPhraseThen(p, rest);
    SplitPhraseThenCollapsed(p, c);
  }

  /**
    Words spoken after a phrase do not stop it from matching: the capture loop relies on
    this (chat.py:671-716), since the recogniser may return the phrase with more words in the same utterance.
  */
  lemma TrailingWordsIgnored(p: String, rest: String)
    requires Normal(p) && p != []
    ensures StartsWith(p + [' '] + rest, p)
  {
    SplitPhraseThen(p, rest);
    StartsWithWhenWordsExtend(p + [' '] + rest, p, Split(TrimRight(Collapse(LowerStr(rest), true))));
  }

  /** The words of a phrase followed by one more word. */
  lemma SplitPhraseThenWord(p: String, w: String)
    requires p != [] && p[|p| - 1] != ' ' && !IsSpace(p[|p| - 1])
    requires w != [] && NoSpace(w)
    ensures Split(p + [' '] + w) == Split(p) + [w]
  {
    SplitAppend(p, ' ', w);
    SplitWord(w);
  }

  /** A normal phrase, a space and a lower-case word make a normal text. */
  lemma NormalPhraseThenWord(p: String, w: String)
    requires Normal(p) && p != []
    requires w != [] && NoSpace(w) && forall i :: 0 <= i < |w| ==> NormChar(w[i])
    ensures Normal(p + [' '] + w)
  {
    var text := p + [' '] + w;
    forall i | 0 <= i < |text| ensures NormChar(text[i]) {
      if i < |p| { assert text[i] == p[i]; }
      else if i > |p| { assert text[i] == w[i - |p| - 1]; }
    }
    forall i | 0 <= i < |text| - 1 ensures !(text[i] == ' ' && text[i + 1] == ' ') {
      if i < |p| - 1 { assert text[i] == p[i] && text[i + 1] == p[i + 1]; }
      else if i >= |p| { assert text[i + 1] == w[i - |p|]; }
    }
    assert text[|text| - 1] == w[|w| - 1];
  }

  /** A text whose normalised words extend the phrase's words matches it. */
  lemma StartsWithWhenWordsExtend(text: String, phrase: String, more: seq<String>)
    requires Split(Norm(text)) == Split(phrase) + more
    ensures StartsWith(text, phrase)
  {
    PrefixOfAppend(Split(phrase), more);
  }

  /**
    Matching is by whole words: text whose last word is a different word than the
    phrase's last word, a truncation of it for one, does not match.
  */
  lemma DifferentLastWordDoesNotMatch(p: String, w: String, u: String)
    requires Normal(p) && p != []
    requires w != [] && NoSpace(w) && forall i :: 0 <= i < |w| ==> NormChar(w[i])
    requires u != [] && NoSpace(u)
    requires w != u
    ensures !StartsWith(p + [' '] + w, p + [' '] + u)
  {
    var text := p + [' '] + w;
    assert IsAlnum(p[|p| - 1]);
    assert Split(Norm(text)) == Split(p) + [w] by {
      NormalPhraseThenWord(p, w);
      NormOfNormal(text);
      SplitPhraseThenWord(p, w);
    }
    assert Split(p + [' '] + u) == Split(p) + [u] by {
      SplitPhraseThenWord(p, u);
    }
    NoMatchWhenLastWordDiffers(text, p + [' '] + u, Split(p), w, u);
  }

  /** Texts whose words differ from the phrase's in the last place do not match. */
  lemma NoMatchWhenLastWordDiffers(text: String, phrase: String, a: seq<String>, w: String, u: String)
    requires Split(Norm(text)) == a + [w] && Split(phrase) == a + [u] && w != u
    ensures !StartsWith(text, phrase)
  {
    LastDiffers(a, w, u);
  }

  /** "hallo micha" is not the wake phrase "hallo michaela". */
  lemma TruncatedWakeDoesNotMatch()
    ensures !StartsWith("hallo micha", WAKE_PHRASE)
  {
    var p, w, u: String := "hallo", "micha", "michaela";
    assert WAKE_PHRASE == p + [' '] + u;
    assert "hallo micha" == p + [' '] + w;
    assert Normal(p);
    DifferentLastWordDoesNotMatch(p, w, u);
  }

  /** The wake phrase followed by a question still wakes the assistant. */
  lemma WakeWithTrailingWords()
    ensures StartsWith(WAKE_PHRASE + [' '] + "wie geht es dir", WAKE_PHRASE)
  {
    assert Normal(WAKE_PHRASE);
    TrailingWordsIgnored(WAKE_PHRASE, "wie geht es dir");
  }

  /**
    The phrase is not normalised: a phrase with an upper-case letter in one of its
    words matches no text, since normalised text has none.
  */
  lemma UpperCasePhraseNeverMatches(text: String, phrase: String, k: nat, j: nat)
    requires k < |Split(phrase)| && j < |Split(phrase)[k]| && IsUpper(Split(phrase)[k][j])
    ensures !StartsWith(text, phrase)
  {
    var t := Split(Norm(text));
    assert forall k :: 0 <= k < |t| ==> NoUpper(t[k]) by {
      NormShape(text);
      SplitNoUpper(Norm(text));
    }
    var p := Split(phrase);
    if |t| >= |p| {
      assert t[k] != p[k] by {
        if j < |t[k]| {
          assert !IsUpper(t[k][j]);
        }
      }
      assert t[..|p|][k] != p[k];
    }
  }

  /** The capitalised wake phrase "Hallo Michaela" would never wake the assistant. */
  lemma CapitalisedWakeNeverMatches(text: String)
    ensures !StartsWith(text, "Hallo Michaela")
  {
    var w, u: String := "Hallo", "Michaela";
    assert "Hallo Michaela" == w + [' '] + u;
    assert NoSpace(w) && NoSpace(u);
    SplitWordThen(w, ' ', u);
    SplitWord(u);
    assert Split("Hallo Michaela")[0] == w;
    UpperCasePhraseNeverMatches(text, "Hallo Michaela", 0, 0);
  }
}
