/**
  The text of a Gemini reply (`extract_gemini_text`, chat.py:467-481), its
  clean-up before speech (`clean_for_tts`, chat.py:198-208) and the WAV header
  test applied to synthesised audio (`_is_riff_wav`, chat.py:285-286).
*/
module Reply {
  import opened Wrappers
  import opened Text

  /** A part of a candidate's content; `text` is `None` for non-text parts. */
  datatype Part = Part(text: Option<String>)
  /** A candidate's `content`; `parts` may be missing. */
  datatype Content = Content(parts: Option<seq<Part>>)
  datatype Candidate = Candidate(content: Option<Content>)
  /** A `send_message` response: its `candidates`, and the top-level `text` convenience attribute. */
  datatype Response = Response(candidates: Option<seq<Candidate>>, text: Option<String>)

  /** `getattr(content, "parts", None) or []` for a candidate. */
  function PartsOf(c: Candidate): seq<Part> {
    match c.content
    case None => []
    case Some(content) => content.parts.GetOr([])
  }

  /** The chunks a part contributes: its text when that is present and non-empty (`if t:`). */
  function PartChunk(p: Part): seq<String> {
    if p.text.Some? && p.text.value != [] then [p.text.value] else []
  }

  /** The chunks of a list of parts, in order. */
  function PartsChunks(ps: seq<Part>): seq<String> {
    if ps == [] then [] else PartChunk(ps[0]) + PartsChunks(ps[1..])
  }

  /** The chunks of all candidates, in order. */
  function Chunks(cs: seq<Candidate>): seq<String> {
    if cs == [] then [] else PartsChunks(PartsOf(cs[0])) + Chunks(cs[1..])
  }

  /** `"".join(chunks)`. */
  function Join(chunks: seq<String>): String {
    if chunks == [] then [] else chunks[0] + Join(chunks[1..])
  }

  /** What `extract_gemini_text` returns. */
  function GeminiText(resp: Response): String {
    var chunks := Chunks(resp.candidates.GetOr([]));
    if chunks != [] then Join(chunks) else resp.text.GetOr([])
  }

  lemma {:induction false} PartsChunksAppend(a: seq<Part>, b: seq<Part>)
    ensures PartsChunks(a + b) == PartsChunks(a) + PartsChunks(b)
    decreases |a|
  {
    if a == [] {
      assert a + b == b;
    } else {
      assert (a + b)[1..] == a[1..] + b;
      PartsChunksAppend(a[1..], b);
    }
  }

  lemma {:induction false} ChunksAppend(a: seq<Candidate>, b: seq<Candidate>)
    ensures Chunks(a + b) == Chunks(a) + Chunks(b)
    decreases |a|
  {
    if a == [] {
      assert a + b == b;
    } else {
      assert (a + b)[1..] == a[1..] + b;
      ChunksAppend(a[1..], b);
    }
  }

  lemma {:induction false} JoinAppend(a: seq<String>, b: seq<String>)
    ensures Join(a + b) == Join(a) + Join(b)
    decreases |a|
  {
    if a == [] {
      assert a + b == b;
    } else {
      assert (a + b)[1..] == a[1..] + b;
      JoinAppend(a[1..], b);
    }
  }

  lemma PartsChunksSnoc(ps: seq<Part>, j: nat)
    requires j < |ps|
    ensures PartsChunks(ps[..j + 1]) == PartsChunks(ps[..j]) + PartChunk(ps[j])
  {
    var x := [ps[j]];
    assert ps[..j + 1] == ps[..j] + x;
    PartsChunksAppend(ps[..j], x);
    assert PartsChunks(x) == PartChunk(ps[j]) by {
      assert x[1..] == [];
      assert PartChunk(ps[j]) + [] == PartChunk(ps[j]);
    }
  }

  lemma ChunksSnoc(cs: seq<Candidate>, i: nat)
    requires i < |cs|
    ensures Chunks(cs[..i + 1]) == Chunks(cs[..i]) + PartsChunks(PartsOf(cs[i]))
  {
    var x := [cs[i]];
    assert cs[..i + 1] == cs[..i] + x;
    ChunksAppend(cs[..i], x);
    assert Chunks(x) == PartsChunks(PartsOf(cs[i])) by {
      assert x[1..] == [];
      assert PartsChunks(PartsOf(cs[i])) + [] == PartsChunks(PartsOf(cs[i]));
    }
  }

  /** Every chunk is non-empty, so the joined chunks are empty exactly when there are none. */
  lemma {:induction false} JoinEmptyIff(cs: seq<Candidate>)
    ensures Join(Chunks(cs)) == [] <==> Chunks(cs) == []
    decreases |cs|
  {
    if cs != [] {
      JoinChunksOfParts(PartsOf(cs[0]));
      JoinEmptyIff(cs[1..]);
      JoinAppend(PartsChunks(PartsOf(cs[0])), Chunks(cs[1..]));
    }
  }

  lemma {:induction false} JoinChunksOfParts(ps: seq<Part>)
    ensures Join(PartsChunks(ps)) == [] <==> PartsChunks(ps) == []
    decreases |ps|
  {
    if ps != [] {
      JoinChunksOfParts(ps[1..]);
      JoinAppend(PartChunk(ps[0]), PartsChunks(ps[1..]));
    }
  }

  /**
    A response carrying any non-empty part text is read from its parts; the
    top-level `text` is used only when no part has text, and `""` when it is missing too.
  */
  lemma GeminiTextFallback(resp: Response)
    ensures Chunks(resp.candidates.GetOr([])) == [] ==> GeminiText(resp) == resp.text.GetOr([])
    ensures Chunks(resp.candidates.GetOr([])) != [] ==> GeminiText(resp) != []
  {
    JoinEmptyIff(resp.candidates.GetOr([]));
  }

  /** Parts without text, empty texts included, contribute nothing. */
  lemma {:induction false} EmptyPartsIgnored(a: seq<Part>, b: seq<Part>, t: Option<String>)
    requires t == None || t == Some([])
    ensures PartsChunks(a + [Part(t)] + b) == PartsChunks(a + b)
  {
    var x := [Part(t)];
    assert PartsChunks(x) == [] by {
      assert x[1..] == [];
    }
    assert PartsChunks(a + x) == PartsChunks(a) by {
      PartsChunksAppend(a, x);
      assert PartsChunks(a) + [] == PartsChunks(a);
    }
    assert PartsChunks(a + x + b) == PartsChunks(a + x) + PartsChunks(b) by {
      PartsChunksAppend(a + x, b);
    }
    PartsChunksAppend(a, b);
  }

  /** `extract_gemini_text`: concatenate the non-empty part texts of all candidates, else fall back to `resp.text` or `""`. */
  method ExtractText(resp: Response) returns (r: String)
    ensures r == GeminiText(resp)
  {
    var cands := resp.candidates.GetOr([]);
    var chunks: seq<String> := [];
    var i := 0;
    while i < |cands|
      invariant 0 <= i <= |cands|
      invariant chunks == Chunks(cands[..i])
    {
      var parts := PartsOf(cands[i]);
      var j := 0;
      while j < |parts|
        invariant 0 <= j <= |parts|
        invariant chunks == Chunks(cands[..i]) + PartsChunks(parts[..j])
      {
        var t := parts[j].text;
        if t.Some? && t.value != [] {
          chunks := chunks + [t.value];
        }
        PartsChunksSnoc(parts, j);
        j := j + 1;
      }
      assert parts[..j] == parts;
      ChunksSnoc(cands, i);
      i := i + 1;
    }
    assert cands[..i] == cands;
    if chunks != [] {
      r := JoinOf(chunks);
    } else {
      r := resp.text.GetOr([]);
    }
  }

  /** `"".join(chunks)`. */
  method JoinOf(chunks: seq<String>) returns (r: String)
    ensures r == Join(chunks)
  {
    r := [];
    var i := 0;
    while i < |chunks|
      invariant 0 <= i <= |chunks|
      invariant r + Join(chunks[i..]) == Join(chunks)
    {
      assert chunks[i..][1..] == chunks[i + 1..];
      r := r + chunks[i];
      i := i + 1;
    }
  }

  /** `"```"`, the fence of a Markdown code block. */
  const FENCE: String := "```"

  /** A fence starts at index `i` of `s`. */
  predicate FenceAt(s: String, i: nat) {
    i + 3 <= |s| && s[i..i + 3] == FENCE
  }

  /** The index of the first fence in `s`, if any. */
  function FindFence(s: String): (r: Option<nat>)
    ensures r.Some? ==> FenceAt(s, r.value)
    decreases |s|
  {
    if |s| < 3 then None
    else if FenceAt(s, 0) then Some(0)
    else match FindFence(s[1..])
      case None => None
      case Some(k) => (assert s[k + 1..k + 4] == s[1..][k..k + 3]; Some(k + 1))
  }

  /** `FindFence` finds the fence at `k` when none starts earlier. */
  lemma {:induction false} FindFenceFirst(s: String, k: nat)
    requires FenceAt(s, k)
    requires forall i :: 0 <= i < k ==> !FenceAt(s, i)
    ensures FindFence(s) == Some(k)
    decreases k
  {
    if k > 0 {
      assert !FenceAt(s, 0);
      forall i | 0 <= i < k - 1 ensures !FenceAt(s[1..], i) {
        assert !FenceAt(s, i + 1);
        assert s[1..][i..i + 3] == s[i + 1..i + 4];
      }
      assert s[1..][k - 1..k + 2] == s[k..k + 3];
      FindFenceFirst(s[1..], k - 1);
    }
  }

  /**
    `re.sub(r"```.*?```", "", s, flags=re.S)`: scanning from the left, a fence
    with a later fence after it is removed together with everything up to and
    including the nearest such later fence; the search resumes behind it.
    Where no match starts, one character is kept and the search moves on.
  */
  function RemoveFences(s: String): (r: String)
    ensures |r| <= |s|
    decreases |s|
  {
    if |s| < 3 then s
    else if FenceAt(s, 0) && FindFence(s[3..]).Some? then
      RemoveFences(s[3 + FindFence(s[3..]).value + 3..])
    else [s[0]] + RemoveFences(s[1..])
  }

  /** `s.replace(c, "")`. */
  function Without(s: String, c: char): (r: String)
    ensures |r| <= |s|
    ensures forall i :: 0 <= i < |r| ==> r[i] != c
  {
    if s == [] then [] else (if s[0] == c then [] else [s[0]]) + Without(s[1..], c)
  }

  /** The run of whitespace at the front of `s` dropped. */
  function DropSpaces(s: String): (r: String)
    ensures |r| <= |s|
    ensures r == [] || !IsSpace(r[0])
  {
    if s != [] && IsSpace(s[0]) then DropSpaces(s[1..]) else s
  }

  /** `re.sub(r"\s+", " ", s)`: every run of whitespace becomes one blank. */
  function SquashSpaces(s: String): (r: String)
    decreases |s|
  {
    if s == [] then []
    else if IsSpace(s[0]) then [' '] + SquashSpaces(DropSpaces(s))
    else [s[0]] + SquashSpaces(s[1..])
  }

  /** `clean_for_tts`. */
  function CleanForTts(text: String): String {
    Strip(SquashSpaces(Without(Without(Without(RemoveFences(text), '`'), '*'), '#')))
  }

  /** No backtick, `*` or `#`. */
  predicate NoMarkup(s: String) {
    forall i :: 0 <= i < |s| ==> s[i] != '`' && s[i] != '*' && s[i] != '#'
  }

  /** No markup character, and whitespace only as single blanks. */
  predicate Squashed(s: String) {
    NoMarkup(s)
    && (forall i :: 0 <= i < |s| ==> IsSpace(s[i]) ==> s[i] == ' ')
    && SingleSpaced(s)
  }

  /** Squashed, with no blank at either end: every whitespace is a single inner blank. */
  predicate Speakable(s: String) {
    Squashed(s) && (s == [] || (s[0] != ' ' && s[|s| - 1] != ' '))
  }

  lemma {:induction false} WithoutKeeps(s: String, c: char, d: char)
    requires forall i :: 0 <= i < |s| ==> s[i] != d
    ensures forall i :: 0 <= i < |Without(s, c)| ==> Without(s, c)[i] != d
    decreases |s|
  {
    if s != [] {
      WithoutKeeps(s[1..], c, d);
      var head: String := if s[0] == c then [] else [s[0]];
      assert Without(s, c) == head + Without(s[1..], c);
    }
  }

  lemma {:induction false} DropSpacesSuffix(s: String)
    ensures |DropSpaces(s)| <= |s| && DropSpaces(s) == s[|s| - |DropSpaces(s)|..]
    decreases |s|
  {
    if s != [] && IsSpace(s[0]) {
      DropSpacesSuffix(s[1..]);
    }
  }

  /** `SquashSpaces` of text without markup gives a `Squashed` text that starts with a non-blank unless `s` starts with whitespace. */
  lemma {:induction false} SquashShape(s: String)
    requires NoMarkup(s)
    ensures Squashed(SquashSpaces(s))
    ensures SquashSpaces(s) == [] <==> s == []
    ensures s != [] ==> (SquashSpaces(s)[0] == ' ' <==> IsSpace(s[0]))
    decreases |s|
  {
    if s != [] {
      if IsSpace(s[0]) {
        var d := DropSpaces(s);
        DropSpacesSuffix(s);
        assert NoMarkup(d) by {
          assert forall i :: 0 <= i < |d| ==> d[i] == s[|s| - |d| + i];
        }
        SquashShape(d);
        assert d != [] ==> !IsSpace(d[0]);
      } else {
        assert NoMarkup(s[1..]);
        SquashShape(s[1..]);
      }
    }
  }

  /** Trimming a `Squashed` text makes it `Speakable`. */
  lemma StripSquashed(s: String)
    requires Squashed(s)
    ensures Speakable(Strip(s))
  {
    var r := Strip(s);
    var k := |s| - |TrimLeft(s)|;
    assert r == s[k..k + |r|];
    assert forall i :: 0 <= i < |r| ==> r[i] == s[k + i];
  }

  /** What `clean_for_tts` hands to the speech engines contains no `` ` ``, `*` or `#`, and only single inner blanks as whitespace. */
  lemma CleanShape(text: String)
    ensures Speakable(CleanForTts(text))
  {
    var a := Without(RemoveFences(text), '`');
    var b := Without(a, '*');
    WithoutKeeps(a, '*', '`');
    var c := Without(b, '#');
    WithoutKeeps(b, '#', '`');
    WithoutKeeps(b, '#', '*');
    assert NoMarkup(c);
    SquashShape(c);
    StripSquashed(SquashSpaces(c));
  }

  /**
    What either speech engine is given for `text` (chat.py:358-361,
    chat.py:373-376): the text after `clean_for_tts`, or nothing when cleaning
    leaves nothing.
  */
  function Utterance(text: String): Option<String> {
    var cleaned := CleanForTts(text);
    if cleaned == [] then None else Some(cleaned)
  }

  /** The speech engines are never given empty text, nor text with markup or stray whitespace. */
  lemma UtteranceSpeakable(text: String)
    ensures var r := Utterance(text);
      r.Some? ==> r.value != [] && Speakable(r.value)
  {
    CleanShape(text);
  }

  lemma {:induction false} WithoutAbsent(s: String, c: char)
    requires forall i :: 0 <= i < |s| ==> s[i] != c
    ensures Without(s, c) == s
  {
    if s != [] {
      WithoutAbsent(s[1..], c);
    }
  }

  lemma {:induction false} RemoveFencesNoBacktick(s: String)
    requires forall i :: 0 <= i < |s| ==> s[i] != '`'
    ensures RemoveFences(s) == s
    decreases |s|
  {
    if |s| >= 3 {
      assert !FenceAt(s, 0) by {
        assert s[0] != '`' && s[..3][0] == s[0];
      }
      RemoveFencesNoBacktick(s[1..]);
      assert [s[0]] + s[1..] == s;
    }
  }

  lemma {:induction false} SquashSpeakable(s: String)
    requires Squashed(s)
    ensures SquashSpaces(s) == s
    decreases |s|
  {
    if s != [] {
      assert Squashed(s[1..]);
      SquashSpeakable(s[1..]);
      if IsSpace(s[0]) {
        assert s[1..] == [] || !IsSpace(s[1]);
        assert DropSpaces(s) == s[1..];
      }
      assert [s[0]] + s[1..] == s;
    }
  }

  /** Speech text that is already clean is left alone: `clean_for_tts` is idempotent. */
  lemma CleanIdempotent(text: String)
    ensures CleanForTts(CleanForTts(text)) == CleanForTts(text)
  {
    var s := CleanForTts(text);
    CleanShape(text);
    RemoveFencesNoBacktick(s);
    WithoutAbsent(s, '`');
    WithoutAbsent(s, '*');
    WithoutAbsent(s, '#');
    SquashSpeakable(s);
    assert s != [] ==> !IsSpace(s[0]) && !IsSpace(s[|s| - 1]);
    assert TrimLeft(s) == s;
    assert TrimRight(s) == s;
  }

  /**
    A fenced code block is removed with its fences, non-greedily: the text
    after the nearest closing fence is kept for the next match.
  */
  lemma FencedBlockRemoved(code: String, after: String)
    requires forall i :: 0 <= i < |code| ==> !FenceAt(code + FENCE + after, i)
    ensures RemoveFences(FENCE + code + FENCE + after) == RemoveFences(after)
  {
    var s := FENCE + code + FENCE + after;
    var rest := code + FENCE + after;
    assert FenceAt(s, 0) && s[3..] == rest;
    assert FenceAt(rest, |code|) by {
      assert rest[|code|..|code| + 3] == FENCE;
    }
    FindFenceFirst(rest, |code|);
    assert s[3 + |code| + 3..] == after;
  }

  /** `_is_riff_wav`: more than 12 bytes, `RIFF` at offset 0 and `WAVE` at offset 8. */
  predicate IsRiffWav(b: seq<bv8>) {
    |b| > 12 && b[..4] == [0x52, 0x49, 0x46, 0x46] && b[8..12] == [0x57, 0x41, 0x56, 0x45]
  }

  /** A bare 12-byte RIFF/WAVE header with no data after it is rejected. */
  lemma BareHeaderRejected(b: seq<bv8>)
    requires |b| == 12
    ensures !IsRiffWav(b)
  {
  }

  /** Appending audio data never turns a recognised WAV header into a rejected one. */
  lemma RiffWavPrefixClosed(b: seq<bv8>, more: seq<bv8>)
    requires IsRiffWav(b)
    ensures IsRiffWav(b + more)
  {
    assert (b + more)[..4] == b[..4];
    assert (b + more)[8..12] == b[8..12];
  }
}
