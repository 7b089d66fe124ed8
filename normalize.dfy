/** Text utilities of the grapheme-to-phoneme module: punctuation spacing
    ("Plan B"), word lowering and accent stripping. */
module Normalize {
  import opened Strings
  import opened Rewrite

  /** _PUNCT_CHARS: every one of these becomes a token of its own. */
  const PunctChars: seq<char> := ",.;:¡!¿?()[]{}\"«»“”—–…"

  predicate IsPunct(c: char) { c in PunctChars }

  lemma PunctIsNotSpace(c: char)
    requires IsPunct(c)
    ensures !IsSpace(c) && c != ' '
  {
  }

  /** No punctuation character is an accented vowel. */
  lemma PunctIsNotAccented(c: char)
    requires IsPunct(c)
    ensures !IsAccented(c)
  {
  }

  /** Two neighbours are well separated when a punctuation character only ever
      touches whitespace. */
  predicate Separated(a: char, b: char) {
    (IsPunct(a) || IsPunct(b)) ==> (IsSpace(a) || IsSpace(b))
  }

  predicate NotBothSpace(a: char, b: char) { !(IsSpace(a) && IsSpace(b)) }

  /** The characters of `s` that are not whitespace, in order. */
  function NonSpace(s: seq<char>): seq<char> {
    if s == [] then [] else (if IsSpace(s[0]) then [] else [s[0]]) + NonSpace(s[1..])
  }

  lemma {:induction false} NonSpaceConcat(a: seq<char>, b: seq<char>)
    ensures NonSpace(a + b) == NonSpace(a) + NonSpace(b)
  {
    if a == [] {
      assert a + b == b;
    } else {
      assert (a + b)[1..] == a[1..] + b;
      NonSpaceConcat(a[1..], b);
    }
  }

  lemma {:induction false} NonSpaceOfSpaces(s: seq<char>)
    requires forall k | 0 <= k < |s| :: IsSpace(s[k])
    ensures NonSpace(s) == []
  {
    if s != [] {
      NonSpaceOfSpaces(s[1..]);
    }
  }

  /** `_PUNCT_RE.sub(r' \1 ', text)`: a space on each side of every punctuation character. */
  function PadPunct(s: seq<char>): seq<char> {
    if s == [] then [] else PadChar(s[0]) + PadPunct(s[1..])
  }

  function PadChar(c: char): seq<char> {
    if IsPunct(c) then [' ', c, ' '] else [c]
  }

  /** After padding, punctuation only ever touches whitespace. */
  lemma {:induction false} PadPunctSeparates(s: seq<char>)
    ensures AllPairs(PadPunct(s), Separated)
    ensures s != [] ==> PadPunct(s) != [] && (IsSpace(PadPunct(s)[0]) || PadPunct(s)[0] == s[0])
  {
    if s != [] {
      PadPunctSeparates(s[1..]);
      var head := PadChar(s[0]);
      var tail := PadPunct(s[1..]);
      if head != [] && tail != [] {
        var a, b := head[|head| - 1], tail[0];
        assert IsPunct(s[0]) ==> a == ' ';
        assert !IsPunct(s[0]) ==> a == s[0];
        assert IsSpace(b) || b == s[1];
        if !IsSpace(a) && !IsSpace(b) {
          assert !IsPunct(s[0]) && b == s[1];
          assert !IsPunct(s[1]);
        }
      }
      AllPairsConcat(head, tail, Separated);
    }
  }

  /** Padding only adds whitespace. */
  lemma {:induction false} PadPunctNonSpace(s: seq<char>)
    ensures NonSpace(PadPunct(s)) == NonSpace(s)
  {
    if s != [] {
      PadPunctNonSpace(s[1..]);
      NonSpaceConcat(PadChar(s[0]), PadPunct(s[1..]));
      if IsPunct(s[0]) {
        PunctIsNotSpace(s[0]);
        NonSpaceConcat([' ', s[0]], [' ']);
        NonSpaceConcat([' '], [s[0]]);
      }
    }
  }

  /** Collapse every run of whitespace into one plain space (`re.sub(r'\s+', ' ', text)`). */
  function Collapse(s: seq<char>): (r: seq<char>)
    decreases |s|
    ensures s == [] <==> r == []
    ensures s != [] ==> (IsSpace(r[0]) <==> IsSpace(s[0])) && (!IsSpace(s[0]) ==> r[0] == s[0])
  {
    if s == [] then []
    else if IsSpace(s[0]) then [' '] + Collapse(s[1..][Leading(s[1..], IsSpace)..])
    else [s[0]] + Collapse(s[1..])
  }

  /** After collapsing, the only whitespace is a plain space and no two whitespace
      characters are neighbours. */
  lemma {:induction false} CollapseSpaces(s: seq<char>)
    decreases |s|
    ensures forall c | c in Collapse(s) :: IsSpace(c) ==> c == ' '
    ensures AllPairs(Collapse(s), NotBothSpace)
  {
    if s != [] {
      var t := if IsSpace(s[0]) then s[1..][Leading(s[1..], IsSpace)..] else s[1..];
      CollapseSpaces(t);
      var head := if IsSpace(s[0]) then [' '] else [s[0]];
      assert Collapse(s) == head + Collapse(t);
      AllPairsConcat(head, Collapse(t), NotBothSpace);
    }
  }

  /** Collapsing changes only whitespace. */
  lemma {:induction false} CollapseNonSpace(s: seq<char>)
    decreases |s|
    ensures NonSpace(Collapse(s)) == NonSpace(s)
  {
    if s != [] {
      var t := s[1..];
      if IsSpace(s[0]) {
        var u := t[Leading(t, IsSpace)..];
        CollapseNonSpace(u);
        RunNonSpace(s);
        assert Collapse(s) == [' '] + Collapse(u);
        NonSpaceAfterSpaces([' '], Collapse(u));
      } else {
        CollapseNonSpace(t);
        assert Collapse(s) == [s[0]] + Collapse(t);
        NonSpaceConcat([s[0]], Collapse(t));
      }
    }
  }

  /** A leading run of whitespace adds nothing to the non-space characters. */
  lemma RunNonSpace(s: seq<char>)
    requires s != [] && IsSpace(s[0])
    ensures NonSpace(s) == NonSpace(s[1..][Leading(s[1..], IsSpace)..])
  {
    NonSpaceSkip(s);
    NonSpaceDropSpaces(s[1..], Leading(s[1..], IsSpace));
  }

  /** Dropping `n` leading whitespace characters keeps the non-space characters. */
  lemma {:induction false} NonSpaceDropSpaces(t: seq<char>, n: nat)
    requires n <= |t| && forall k | 0 <= k < n :: IsSpace(t[k])
    ensures NonSpace(t) == NonSpace(t[n..])
  {
    if n > 0 {
      NonSpaceSkip(t);
      NonSpaceDropSpaces(t[1..], n - 1);
      assert t[1..][n - 1..] == t[n..];
    }
  }

  lemma NonSpaceSkip(s: seq<char>)
    requires s != [] && IsSpace(s[0])
    ensures NonSpace(s) == NonSpace(s[1..])
  {
  }


  /** Leading whitespace adds nothing to the non-space characters. */
  lemma NonSpaceAfterSpaces(run: seq<char>, u: seq<char>)
    requires forall k | 0 <= k < |run| :: IsSpace(run[k])
    ensures NonSpace(run + u) == NonSpace(u)
  {
    NonSpaceOfSpaces(run);
    NonSpaceConcat(run, u);
  }

  /** Collapsing whitespace keeps punctuation separated from everything but whitespace. */
  lemma {:induction false} CollapseKeepsSeparated(s: seq<char>)
    requires AllPairs(s, Separated)
    ensures AllPairs(Collapse(s), Separated)
    decreases |s|
  {
    if s != [] {
      AllPairsSlice(s, 1, |s|, Separated);
      assert s[1..|s|] == s[1..];
      if IsSpace(s[0]) {
        var t := s[1..];
        var n := Leading(t, IsSpace);
        AllPairsSlice(t, n, |t|, Separated);
        assert t[n..|t|] == t[n..];
        CollapseKeepsSeparated(t[n..]);
        AllPairsConcat([' '], Collapse(t[n..]), Separated);
      } else {
        CollapseKeepsSeparated(s[1..]);
        if s[1..] != [] {
          assert Separated(s[0], s[1]);
        }
        AllPairsConcat([s[0]], Collapse(s[1..]), Separated);
      }
    }
  }

  /** A punctuation character is never immediately followed by a second full stop. */
  lemma NoEllipsisAfterPadding(s: seq<char>)
    requires AllPairs(s, Separated)
    ensures forall k: nat | k < |s| :: !StartsAt(s, k, "...")
  {
    forall k: nat | k < |s|
      ensures !StartsAt(s, k, "...")
    {
      if k + 3 <= |s| {
        assert Separated(s[k], s[k + 1]);
        PunctIsNotSpace('.');
        assert s[k..k + 3][0] == s[k] && s[k..k + 3][1] == s[k + 1];
      }
    }
  }

  /** The `...` split runs after every `.` is already padded with spaces, so it never fires:
      `...` ends up as three `.` tokens through the padding alone, while `…` stays one token. */
  lemma EllipsisSplitIsDead(text: seq<char>)
    ensures Replace(PadPunct(text), "...", " . . . ") == PadPunct(text)
  {
    PadPunctSeparates(text);
    NoEllipsisAfterPadding(PadPunct(text));
    ReplaceAbsent(PadPunct(text), "...", " . . . ");
  }

  /** `_space_punct`: pad punctuation, split `...`, collapse whitespace, strip. */
  function SpacePunct(text: seq<char>): seq<char> {
    Strip(Collapse(Replace(PadPunct(text), "...", " . . . ")))
  }

  /** The text `_space_punct` strips: padded and collapsed, with punctuation separated
      and whitespace made of single plain spaces. */
  lemma SpacePunctCollapsed(text: seq<char>) returns (collapsed: seq<char>)
    ensures SpacePunct(text) == Strip(collapsed)
    ensures AllPairs(collapsed, Separated) && AllPairs(collapsed, NotBothSpace)
    ensures forall c | c in collapsed :: IsSpace(c) ==> c == ' '
    ensures NonSpace(collapsed) == NonSpace(text)
  {
    EllipsisSplitIsDead(text);
    PadPunctSeparates(text);
    PadPunctNonSpace(text);
    var padded := PadPunct(text);
    collapsed := Collapse(padded);
    CollapseKeepsSeparated(padded);
    CollapseSpaces(padded);
    CollapseNonSpace(padded);
  }

  /** The spaced text has no whitespace at either end, no whitespace other than plain
      spaces, and never two spaces in a row. */
  lemma SpacePunctLayout(text: seq<char>)
    ensures var r := SpacePunct(text);
      && (r == [] || (!IsSpace(r[0]) && !IsSpace(r[|r| - 1])))
      && (forall c | c in r :: IsSpace(c) ==> c == ' ')
      && (forall k | 0 <= k < |r| - 1 :: !(r[k] == ' ' && r[k + 1] == ' '))
  {
    var collapsed := SpacePunctCollapsed(text);
    StripLayout(collapsed);
  }

  /** Stripping text whose whitespace is single plain spaces leaves no whitespace at
      either end and keeps the spaces single and plain. */
  lemma StripLayout(s: seq<char>)
    requires AllPairs(s, NotBothSpace)
    requires forall c | c in s :: IsSpace(c) ==> c == ' '
    ensures var r := Strip(s);
      && (r == [] || (!IsSpace(r[0]) && !IsSpace(r[|r| - 1])))
      && (forall c | c in r :: IsSpace(c) ==> c == ' ')
      && (forall k | 0 <= k < |r| - 1 :: !(r[k] == ' ' && r[k + 1] == ' '))
  {
    var r := Strip(s);
    var a := Leading(s, IsSpace);
    assert r == s[a..a + |r|];
    AllPairsSlice(s, a, a + |r|, NotBothSpace);
    PlainSpacesSlice(s, a, a + |r|);
    NoDoubleSpace(r);
  }

  lemma PlainSpacesSlice(s: seq<char>, lo: nat, hi: nat)
    requires lo <= hi <= |s|
    requires forall c | c in s :: IsSpace(c) ==> c == ' '
    ensures forall c | c in s[lo..hi] :: IsSpace(c) ==> c == ' '
  {
    forall c | c in s[lo..hi] ensures IsSpace(c) ==> c == ' ' {
      assert c in s;
    }
  }

  lemma NoDoubleSpace(r: seq<char>)
    requires AllPairs(r, NotBothSpace)
    ensures forall k | 0 <= k < |r| - 1 :: !(r[k] == ' ' && r[k + 1] == ' ')
  {
    forall k | 0 <= k < |r| - 1
      ensures !(r[k] == ' ' && r[k + 1] == ' ')
    {
      assert NotBothSpace(r[k], r[k + 1]);
    }
  }

  /** Every punctuation character of the spaced text is a token of its own: each of its
      neighbours is a space. */
  lemma SpacePunctIsolates(text: seq<char>)
    ensures var r := SpacePunct(text);
      forall k | 0 <= k < |r| && IsPunct(r[k]) ::
        (k == 0 || r[k - 1] == ' ') && (k == |r| - 1 || r[k + 1] == ' ')
  {
    var collapsed := SpacePunctCollapsed(text);
    var r := Strip(collapsed);
    var a := Leading(collapsed, IsSpace);
    AllPairsSlice(collapsed, a, a + |r|, Separated);
    SpacePunctLayout(text);
    IsolatedBySpaces(r);
  }

  lemma IsolatedBySpaces(r: seq<char>)
    requires AllPairs(r, Separated)
    requires forall c | c in r :: IsSpace(c) ==> c == ' '
    ensures forall k | 0 <= k < |r| && IsPunct(r[k]) ::
              (k == 0 || r[k - 1] == ' ') && (k == |r| - 1 || r[k + 1] == ' ')
  {
    forall k | 0 <= k < |r| && IsPunct(r[k])
      ensures (k == 0 || r[k - 1] == ' ') && (k == |r| - 1 || r[k + 1] == ' ')
    {
      PunctIsNotSpace(r[k]);
      if k > 0 {
        assert Separated(r[k - 1], r[k]);
        assert r[k - 1] in r;
      }
      if k < |r| - 1 {
        assert Separated(r[k], r[k + 1]);
        assert r[k + 1] in r;
      }
    }
  }

  /** Stripping removes only whitespace. */
  /** Whitespace around `r` adds nothing to its non-space characters. */
  lemma NonSpaceAround(pre: seq<char>, r: seq<char>, post: seq<char>)
    requires forall k | 0 <= k < |pre| :: IsSpace(pre[k])
    requires forall k | 0 <= k < |post| :: IsSpace(post[k])
    ensures NonSpace(pre + r + post) == NonSpace(r)
  {
    NonSpaceOfSpaces(pre);
    NonSpaceOfSpaces(post);
    calc {
      NonSpace(pre + r + post);
      { NonSpaceConcat(pre + r, post); }
      NonSpace(pre + r) + NonSpace(post);
      { NonSpaceConcat(pre, r); }
      NonSpace(pre) + NonSpace(r) + NonSpace(post);
      NonSpace(r);
    }
  }

  lemma StripKeepsNonSpace(s: seq<char>)
    ensures NonSpace(Strip(s)) == NonSpace(s)
  {
    var r := StripBy(s, IsSpace);
    var a := Leading(s, IsSpace);
    var b := a + |r|;
    var pre, post := s[..a], s[b..];
    forall k | 0 <= k < |pre| ensures IsSpace(pre[k]) {
      assert pre[k] == s[k];
    }
    forall k | 0 <= k < |post| ensures IsSpace(post[k]) {
      assert post[k] == s[b + k];
    }
    assert s == pre + r + post;
    NonSpaceAround(pre, r, post);
  }

  /** Spacing changes only whitespace: the other characters are the input's, in order. */
  lemma SpacePunctKeepsText(text: seq<char>)
    ensures NonSpace(SpacePunct(text)) == NonSpace(text)
  {
    var collapsed := SpacePunctCollapsed(text);
    StripKeepsNonSpace(collapsed);
  }

  /** `str.lower` on the letters Spanish text uses: ASCII capitals and ÁÉÍÓÚÑÜ. */
  function LowerChar(c: char): char {
    if 'A' <= c <= 'Z' then (c as int + 32) as char
    else if c == 'Á' then 'á' else if c == 'É' then 'é' else if c == 'Í' then 'í'
    else if c == 'Ó' then 'ó' else if c == 'Ú' then 'ú' else if c == 'Ñ' then 'ñ'
    else if c == 'Ü' then 'ü' else c
  }

  predicate IsUpper(c: char) { 'A' <= c <= 'Z' || c in "ÁÉÍÓÚÑÜ" }

  /** `normalize_word`: the lowered word has the same length, no capital letter,
      and differs from the input only where the input had a capital. */
  function NormalizeWord(w: seq<char>): (r: seq<char>)
    ensures |r| == |w|
    ensures forall c | c in r :: !IsUpper(c)
    ensures forall k | 0 <= k < |w| :: r[k] == w[k] || (IsUpper(w[k]) && r[k] == LowerChar(w[k]))
  {
    if w == [] then [] else [LowerChar(w[0])] + NormalizeWord(w[1..])
  }

  lemma {:induction false} NormalizeWordIdempotent(w: seq<char>)
    ensures NormalizeWord(NormalizeWord(w)) == NormalizeWord(w)
  {
    if w != [] {
      NormalizeWordIdempotent(w[1..]);
    }
  }

  /** ACUTE_MAP: an accented vowel's plain form; every other character is itself. */
  function Unaccent(c: char): char {
    if c == 'á' then 'a' else if c == 'é' then 'e' else if c == 'í' then 'i'
    else if c == 'ó' then 'o' else if c == 'ú' then 'u' else c
  }

  /** `strip_accents`: same length, every accented vowel replaced by its plain form
      and nothing else touched, so no accented vowel remains. */
  function StripAccents(s: seq<char>): (r: seq<char>)
    ensures |r| == |s|
    ensures forall k | 0 <= k < |s| :: r[k] == Unaccent(s[k])
    ensures forall c | c in r :: !IsAccented(c)
  {
    if s == [] then [] else [Unaccent(s[0])] + StripAccents(s[1..])
  }

  lemma StripAccentsConcat(a: seq<char>, b: seq<char>)
    ensures StripAccents(a + b) == StripAccents(a) + StripAccents(b)
  {
  }

  /** Stripping a string that carries a mark `m` (no accented vowel) and the plain form of
      `c` equals the stripped prefix, the mark and the stripped rest with `c`. */
  lemma StripAroundMarker(m: char, a: seq<char>, b: seq<char>, c: char, d: seq<char>)
    requires !IsAccented(m)
    ensures StripAccents(a + [m] + b + [Unaccent(c)] + d)
         == StripAccents(a) + [m] + StripAccents(b + [c] + d)
  {
    var rest := b + [Unaccent(c)] + d;
    assert a + [m] + b + [Unaccent(c)] + d == a + [m] + rest;
    calc {
      StripAccents(a + [m] + rest);
      { StripAccentsConcat3(a, [m], rest); }
      StripAccents(a) + StripAccents([m]) + StripAccents(rest);
      { assert StripAccents([m]) == [m]; }
      StripAccents(a) + [m] + StripAccents(rest);
      { UnaccentInside(b, c, d); }
      StripAccents(a) + [m] + StripAccents(b + [c] + d);
    }
  }

  /** Stripping does not see whether a character was already unaccented. */
  lemma UnaccentInside(b: seq<char>, c: char, d: seq<char>)
    ensures StripAccents(b + [Unaccent(c)] + d) == StripAccents(b + [c] + d)
  {
    calc {
      StripAccents(b + [Unaccent(c)] + d);
      { StripAccentsConcat3(b, [Unaccent(c)], d); }
      StripAccents(b) + StripAccents([Unaccent(c)]) + StripAccents(d);
      { assert StripAccents([Unaccent(c)]) == StripAccents([c]); }
      StripAccents(b) + StripAccents([c]) + StripAccents(d);
      { StripAccentsConcat3(b, [c], d); }
      StripAccents(b + [c] + d);
    }
  }

  lemma StripAccentsConcat3(a: seq<char>, b: seq<char>, c: seq<char>)
    ensures StripAccents(a + b + c) == StripAccents(a) + StripAccents(b) + StripAccents(c)
  {
    StripAccentsConcat(a + b, c);
    StripAccentsConcat(a, b);
  }


  /** Stripping is the identity on accent-free text, hence idempotent. */
  lemma StripAccentsFixes(s: seq<char>)
    requires forall c | c in s :: !IsAccented(c)
    ensures StripAccents(s) == s
  {
    forall k | 0 <= k < |s| ensures StripAccents(s)[k] == s[k] {
      assert s[k] in s;
    }
  }
}
