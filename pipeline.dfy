/** `g2p`: the public entry point. The text is spaced around punctuation and split on
    single spaces; empty pieces are skipped, punctuation-only pieces are copied, and every
    other piece runs through the four word stages. The pieces are joined with spaces and
    wrapped as "/ … /". */
module Pipeline {
  import opened Strings
  import opened Rewrite
  import opened Normalize
  import opened Graphemes
  import opened Stress

  /** `set(tok) <= _PUNCT_SET`. */
  predicate IsPunctToken(tok: seq<char>) {
    forall c | c in tok :: IsPunct(c)
  }

  /** The four word stages in order. */
  function TranscribeWord(cfg: Config, tok: seq<char>): (r: seq<char>)
    ensures forall c | c in r :: !IsAccented(c)
  {
    InsertStressMarker(ApplyGlides(cfg, StressMarked(MapGraphemes(cfg, tok))))
  }

  /** A punctuation-only piece is kept as it is; any other piece is transcribed. */
  function TranscribeToken(cfg: Config, tok: seq<char>): (r: seq<char>)
    ensures IsPunctToken(tok) ==> r == tok
    ensures forall c | c in r :: !IsAccented(c)
  {
    if IsPunctToken(tok) then PunctTokenAccentFree(tok); tok else TranscribeWord(cfg, tok)
  }

  /** Punctuation characters are not accented vowels. */
  lemma PunctTokenAccentFree(tok: seq<char>)
    requires IsPunctToken(tok)
    ensures forall c | c in tok :: !IsAccented(c)
  {
    forall c | c in tok ensures !IsAccented(c) {
      PunctIsNotAccented(c);
    }
  }

  /** The `out` list after the loop has seen `toks`. */
  function Transcribe(cfg: Config, toks: seq<seq<char>>): seq<seq<char>> {
    if toks == [] then []
    else
      var tok := toks[|toks| - 1];
      Transcribe(cfg, toks[..|toks| - 1]) + (if tok == [] then [] else [TranscribeToken(cfg, tok)])
  }

  /** The final formatting of the joined result. */
  function Wrap(result: seq<char>): (r: seq<char>)
    ensures result == [] <==> r == "//"
    ensures result != [] ==> |r| == |result| + 4 && r[2..|r| - 2] == result
  {
    if result == [] then "//" else "/ " + result + " /"
  }

  /** What `g2p` returns. */
  function G2pSpec(cfg: Config, text: seq<char>): seq<char> {
    if text == [] then "//"
    else Wrap(Strip(Join(Transcribe(cfg, Split(SpacePunct(text))))))
  }

  /** One more piece extends the `out` list by its transcription, or not at all when empty. */
  lemma TranscribeNext(cfg: Config, toks: seq<seq<char>>, i: nat)
    requires i < |toks|
    ensures Transcribe(cfg, toks[..i + 1])
         == Transcribe(cfg, toks[..i]) + (if toks[i] == [] then [] else [TranscribeToken(cfg, toks[i])])
  {
    assert toks[..i + 1][..i] == toks[..i];
  }

  /** `g2p`: the loop over the pieces of the spaced text, appending to `out`. */
  method G2p(cfg: Config, text: seq<char>) returns (r: seq<char>)
    ensures r == G2pSpec(cfg, text)
  {
    if text == [] {
      return "//";
    }
    var spaced := SpacePunct(text);
    var toks := Split(spaced);
    var out: seq<seq<char>> := [];
    for i := 0 to |toks|
      invariant out == Transcribe(cfg, toks[..i])
    {
      TranscribeNext(cfg, toks, i);
      var tok := toks[i];
      if tok == [] {
        continue;
      }
      if IsPunctToken(tok) {
        out := out + [tok];
        continue;
      }
      var p1 := MapGraphemes(cfg, tok);
      var p2 := AddStressIfNeeded(p1);
      var p3 := ApplyGlides(cfg, p2);
      var p4 := InsertStressMarker(p3);
      assert p4 == TranscribeToken(cfg, tok);
      out := out + [p4];
    }
    assert toks[..|toks|] == toks;
    var result := Strip(Join(out));
    r := if result == [] then "//" else "/ " + result + " /";
    assert r == Wrap(result);
  }

  // ---------------------------------------------------------------- properties

  /** The pieces of `toks` that the loop does not skip, in order. */
  function NonEmpty(toks: seq<seq<char>>): (ne: seq<seq<char>>)
    ensures forall t | t in ne :: t != [] && t in toks
  {
    if toks == [] then []
    else
      var tok := toks[|toks| - 1];
      NonEmpty(toks[..|toks| - 1]) + (if tok == [] then [] else [tok])
  }

  /** The loop transcribes each non-empty piece on its own, in order. */
  lemma {:induction false} TranscribePieces(cfg: Config, toks: seq<seq<char>>)
    ensures var ne := NonEmpty(toks);
      var out := Transcribe(cfg, toks);
      |out| == |ne| && forall k | 0 <= k < |ne| :: out[k] == TranscribeToken(cfg, ne[k])
  {
    if toks != [] {
      TranscribePieces(cfg, toks[..|toks| - 1]);
    }
  }

  /** No string here holds an accented vowel. */
  predicate AccentFree(s: seq<char>) {
    forall c | c in s :: !IsAccented(c)
  }

  lemma {:induction false} JoinAccentFree(toks: seq<seq<char>>)
    requires forall t | t in toks :: AccentFree(t)
    ensures AccentFree(Join(toks))
  {
    if |toks| > 1 {
      assert toks[0] in toks;
      assert forall t | t in toks[1..] :: t in toks;
      JoinAccentFree(toks[1..]);
    } else if |toks| == 1 {
      assert toks[0] in toks;
    }
  }

  /** Every transcribed piece is free of accented vowels. */
  lemma TranscribeAccentFree(cfg: Config, toks: seq<seq<char>>)
    ensures forall t | t in Transcribe(cfg, toks) :: AccentFree(t)
  {
    var out := Transcribe(cfg, toks);
    TranscribePieces(cfg, toks);
    forall t | t in out ensures AccentFree(t) {
      var k :| 0 <= k < |out| && out[k] == t;
      assert t == TranscribeToken(cfg, NonEmpty(toks)[k]);
    }
  }

  /** Trimming keeps a string free of accented vowels. */
  lemma StripAccentFree(s: seq<char>)
    requires AccentFree(s)
    ensures AccentFree(Strip(s))
  {
    var r := Strip(s);
    var lead := Leading(s, IsSpace);
    forall c | c in r ensures !IsAccented(c) {
      var k :| 0 <= k < |r| && r[k] == c;
      assert r[k] == s[lead + k];
    }
  }

  /** Wrapping adds only slashes and spaces. */
  lemma WrapAccentFree(res: seq<char>)
    requires AccentFree(res)
    ensures AccentFree(Wrap(res))
  {
    if res != [] {
      forall c | c in "/ " + res + " /" ensures !IsAccented(c) {
        assert c in "/ " || c in res || c in " /";
      }
    }
  }

  /** `g2p` never emits an accented vowel: only base vowels and the marker ˈ carry stress. */
  lemma G2pAccentFree(cfg: Config, text: seq<char>)
    ensures AccentFree(G2pSpec(cfg, text))
  {
    if text != [] {
      var out := Transcribe(cfg, Split(SpacePunct(text)));
      TranscribeAccentFree(cfg, Split(SpacePunct(text)));
      JoinAccentFree(out);
      StripAccentFree(Join(out));
      WrapAccentFree(Strip(Join(out)));
    }
  }

  /** Wrapping a result trimmed of whitespace gives "//" or "/ " + result + " /" around
      a non-blank inner part. */
  lemma WrapShape(res: seq<char>)
    requires res == [] || (!IsSpace(res[0]) && !IsSpace(res[|res| - 1]))
    ensures var r := Wrap(res);
      r == "//" || (|r| >= 5 && r[..2] == "/ " && r[|r| - 2..] == " /" && !IsSpace(r[2]) && !IsSpace(r[|r| - 3]))
  {
    if res != [] {
      var r := "/ " + res + " /";
      assert r[2] == res[0] && r[|r| - 3] == res[|res| - 1];
      assert r[..2] == "/ " && r[|r| - 2..] == " /";
    }
  }

  /** Wrapping a trimmed string has that shape. */
  lemma StripWrapShape(s: seq<char>)
    ensures var r := Wrap(Strip(s));
      r == "//" || (|r| >= 5 && r[..2] == "/ " && r[|r| - 2..] == " /" && !IsSpace(r[2]) && !IsSpace(r[|r| - 3]))
  {
    WrapShape(Strip(s));
  }

  /** Empty text gives "//"; any other result is "//" or a non-empty inner part between
      "/ " and " /" that neither starts nor ends with whitespace. */
  lemma G2pShape(cfg: Config, text: seq<char>)
    ensures text == [] ==> G2pSpec(cfg, text) == "//"
    ensures var r := G2pSpec(cfg, text);
      r == "//" || (|r| >= 5 && r[..2] == "/ " && r[|r| - 2..] == " /" && !IsSpace(r[2]) && !IsSpace(r[|r| - 3]))
  {
    if text != [] {
      StripWrapShape(Join(Transcribe(cfg, Split(SpacePunct(text)))));
    }
  }

  /** A word without the marker comes out with exactly one marker when its phones carry an
      accent or have two or more vowel groups, and with none otherwise. */
  lemma WordMarkers(cfg: Config, tok: seq<char>)
    requires 'ˈ' !in tok
    ensures var q := MapGraphemes(cfg, tok);
      Count('ˈ', TranscribeWord(cfg, tok)) == if HasAccent(q) || |Groups(q)| >= 2 then 1 else 0
  {
    var q := MapGraphemes(cfg, tok);
    MapGraphemesNoMarker(cfg, tok);
    var s := StressMarked(q);
    StressMarkedKeepsMarkers(q);
    StressMarkedAccents(q);
    var g := ApplyGlides(cfg, s);
    ApplyGlidesKeepsAccents(cfg, s);
    CountPointwise('ˈ', s, g);
    HasAccentPointwise(s, g);
    InsertStressMarkerCount(g);
  }
}
