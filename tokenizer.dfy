/** `tokenize_ipa` and its vocabulary `get_phoneme_map`: the phone string produced by
    `g2p` is trimmed, optionally loses its stress marks, has the tʃ ligature normalised,
    and is then cut greedily into the longest vocabulary keys, left to right; a character
    no key covers is recorded as unknown. */
module Tokenizer {
  import opened Strings
  import opened Rewrite

  /** `phoneme_to_id`: phone symbol to model id. */
  type Vocab = map<seq<char>, int>

  // ---------------------------------------------------------------- preprocessing

  /** `s.strip().strip('/')`, the stress marks dropped unless they are to be kept and
      are a key, then tʃ rewritten to ʧ when only the ligature is a key. */
  function Preprocess(ipa: seq<char>, vocab: Vocab, keepStress: bool): seq<char> {
    var s0 := StripSlashes(Strip(ipa));
    var s1 := if !(keepStress && "ˈ" in vocab) then Replace(s0, "ˈ", "") else s0;
    if "ʧ" in vocab && "tʃ" !in vocab then Replace(s1, "tʃ", "ʧ") else s1
  }

  /** `tʃ` occurs at position `k`. */
  predicate LigatureAt(s: seq<char>, k: nat) {
    k + 1 < |s| && s[k] == 't' && s[k + 1] == 'ʃ'
  }

  /** Rewriting tʃ leaves no tʃ behind. */
  lemma {:induction false} NoLigatureLeft(s: seq<char>)
    ensures var r := Replace(s, "tʃ", "ʧ"); forall k: nat | k < |r| :: !LigatureAt(r, k)
    decreases |s|
  {
    var r := Replace(s, "tʃ", "ʧ");
    if |s| >= 2 && s[..2] == "tʃ" {
      ReplaceHit(s, "tʃ", "ʧ");
      NoLigatureLeft(s[2..]);
      var t := Replace(s[2..], "tʃ", "ʧ");
      forall k: nat | k < |r| ensures !LigatureAt(r, k) {
        if k > 0 {
          assert !LigatureAt(t, k - 1);
        }
      }
    } else if s != [] {
      ReplaceSkip(s, "tʃ", "ʧ");
      NoLigatureLeft(s[1..]);
      var t := Replace(s[1..], "tʃ", "ʧ");
      forall k: nat | k < |r| ensures !LigatureAt(r, k) {
        if k > 0 {
          assert !LigatureAt(t, k - 1);
        } else if |s| >= 2 && s[0] == 't' {
          assert s[1] != 'ʃ' by { assert s[..2] == [s[0], s[1]]; }
          if |s| >= 3 && s[1..][..2] == "tʃ" {
            ReplaceHit(s[1..], "tʃ", "ʧ");
          } else {
            ReplaceSkip(s[1..], "tʃ", "ʧ");
          }
        }
      }
    }
  }

  /** The number of `c` in the result of a rewrite whose pattern and replacement do not
      mention `c`. */
  lemma {:induction false} ReplaceKeepsCount(c: char, s: seq<char>, pat: seq<char>, rep: seq<char>)
    requires |pat| > 0 && c !in pat && c !in rep
    ensures Count(c, Replace(s, pat, rep)) == Count(c, s)
    decreases |s|
  {
    if |pat| <= |s| && s[..|pat|] == pat {
      ReplaceHit(s, pat, rep);
      ReplaceKeepsCount(c, s[|pat|..], pat, rep);
      CountConcat(c, rep, Replace(s[|pat|..], pat, rep));
      assert s == pat + s[|pat|..];
      CountConcat(c, pat, s[|pat|..]);
    } else if s != [] {
      ReplaceSkip(s, pat, rep);
      ReplaceKeepsCount(c, s[1..], pat, rep);
      CountConcat(c, [s[0]], Replace(s[1..], pat, rep));
    }
  }

  /** Stress marks survive, all of them, exactly when they are to be kept and are a key;
      otherwise none is left. */
  lemma PreprocessStress(ipa: seq<char>, vocab: Vocab, keepStress: bool)
    ensures var s0 := StripSlashes(Strip(ipa));
      var s := Preprocess(ipa, vocab, keepStress);
      && (keepStress && "ˈ" in vocab ==> Count('ˈ', s) == Count('ˈ', s0))
      && (!(keepStress && "ˈ" in vocab) ==> 'ˈ' !in s)
  {
    var s0 := StripSlashes(Strip(ipa));
    var s1 := if !(keepStress && "ˈ" in vocab) then Replace(s0, "ˈ", "") else s0;
    if "ʧ" in vocab && "tʃ" !in vocab {
      ReplaceKeepsCount('ˈ', s1, "tʃ", "ʧ");
    }
    assert 'ˈ' !in "tʃ" && 'ˈ' !in "ʧ";
  }

  /** The ligature step applies exactly when ʧ is a key and tʃ is not: then no tʃ is left,
      and otherwise the string is not touched by it. */
  lemma PreprocessLigature(ipa: seq<char>, vocab: Vocab, keepStress: bool)
    ensures var s0 := StripSlashes(Strip(ipa));
      var s1 := if !(keepStress && "ˈ" in vocab) then Replace(s0, "ˈ", "") else s0;
      var s := Preprocess(ipa, vocab, keepStress);
      && ("ʧ" in vocab && "tʃ" !in vocab ==> forall k: nat | k < |s| :: !LigatureAt(s, k))
      && (!("ʧ" in vocab && "tʃ" !in vocab) ==> s == s1)
  {
    var s0 := StripSlashes(Strip(ipa));
    var s1 := if !(keepStress && "ˈ" in vocab) then Replace(s0, "ˈ", "") else s0;
    NoLigatureLeft(s1);
  }

  // ---------------------------------------------------------------- greedy scan

  /** `rest.startswith(k)`. */
  predicate IsPrefix(k: seq<char>, rest: seq<char>) {
    |k| <= |rest| && rest[..|k|] == k
  }

  /** The length of the longest non-empty key that starts `rest`, 0 when none does. */
  function LongestMatch(vocab: Vocab, rest: seq<char>): (n: nat)
    ensures n <= |rest|
    ensures n > 0 ==> rest[..n] in vocab
    ensures forall m | n < m <= |rest| :: rest[..m] !in vocab
  {
    LongestUpTo(vocab, rest, |rest|)
  }

  function LongestUpTo(vocab: Vocab, rest: seq<char>, m: nat): (n: nat)
    requires m <= |rest|
    ensures n <= m
    ensures n > 0 ==> rest[..n] in vocab
    ensures forall j | n < j <= m :: rest[..j] !in vocab
  {
    if m == 0 then 0 else if rest[..m] in vocab then m else LongestUpTo(vocab, rest, m - 1)
  }

  /** `LongestMatch` is the only length with its three properties. */
  lemma LongestMatchUnique(vocab: Vocab, rest: seq<char>, n: nat)
    requires n <= |rest| && (n > 0 ==> rest[..n] in vocab)
    requires forall m | n < m <= |rest| :: rest[..m] !in vocab
    ensures n == LongestMatch(vocab, rest)
  {
    var best := LongestMatch(vocab, rest);
    assert best > 0 ==> rest[..best] in vocab;
    assert n > 0 ==> rest[..n] in vocab;
  }

  /** One step of the scan: a key, or a character no key covers. */
  datatype Piece = Token(key: seq<char>) | Unknown(ch: char)

  /** The pieces the scan cuts `s` into. */
  function Scan(vocab: Vocab, s: seq<char>): (ps: seq<Piece>)
    ensures |ps| <= |s| && (ps == [] <==> s == [])
    ensures forall m | 0 <= m < |ps| :: ps[m].Token? ==> ps[m].key != [] && ps[m].key in vocab
    decreases |s|
  {
    if s == [] then []
    else
      var n := LongestMatch(vocab, s);
      if n > 0 then [Token(s[..n])] + Scan(vocab, s[n..])
      else [Unknown(s[0])] + Scan(vocab, s[1..])
  }

  /** The piece the scan takes first, and how much of the string it covers. */
  lemma ScanStep(vocab: Vocab, t: seq<char>)
    requires t != []
    ensures var n := LongestMatch(vocab, t);
      n > 0 ==> Scan(vocab, t) == [Token(t[..n])] + Scan(vocab, t[n..])
    ensures LongestMatch(vocab, t) == 0 ==> Scan(vocab, t) == [Unknown(t[0])] + Scan(vocab, t[1..])
  {
  }

  /** The `tokens` list: the keys among the pieces, in order. */
  function Tokens(ps: seq<Piece>): (ts: seq<seq<char>>)
    ensures |ts| <= |ps|
  {
    if ps == [] then []
    else (if ps[0].Token? then [ps[0].key] else []) + Tokens(ps[1..])
  }

  /** The `unknown` list: the uncovered characters among the pieces, in order. */
  function Unknowns(ps: seq<Piece>): (us: seq<char>)
    ensures |us| + |Tokens(ps)| == |ps|
  {
    if ps == [] then []
    else (if ps[0].Unknown? then [ps[0].ch] else []) + Unknowns(ps[1..])
  }

  /** The text the pieces stand for, in scan order. */
  function Flatten(ps: seq<Piece>): seq<char> {
    if ps == [] then [] else (match ps[0] case Token(k) => k case Unknown(c) => [c]) + Flatten(ps[1..])
  }

  lemma {:induction false} TokensConcat(a: seq<Piece>, b: seq<Piece>)
    ensures Tokens(a + b) == Tokens(a) + Tokens(b)
  {
    if a == [] {
      assert a + b == b;
    } else {
      var h := (if a[0].Token? then [a[0].key] else []);
      assert (a + b)[0] == a[0] && (a + b)[1..] == a[1..] + b;
      calc {
        Tokens(a + b);
        h + Tokens(a[1..] + b);
        { TokensConcat(a[1..], b); }
        h + (Tokens(a[1..]) + Tokens(b));
        (h + Tokens(a[1..])) + Tokens(b);
        Tokens(a) + Tokens(b);
      }
    }
  }

  lemma {:induction false} UnknownsConcat(a: seq<Piece>, b: seq<Piece>)
    ensures Unknowns(a + b) == Unknowns(a) + Unknowns(b)
  {
    if a == [] {
      assert a + b == b;
    } else {
      var h := (if a[0].Unknown? then [a[0].ch] else []);
      assert (a + b)[0] == a[0] && (a + b)[1..] == a[1..] + b;
      calc {
        Unknowns(a + b);
        h + Unknowns(a[1..] + b);
        { UnknownsConcat(a[1..], b); }
        h + (Unknowns(a[1..]) + Unknowns(b));
        (h + Unknowns(a[1..])) + Unknowns(b);
        Unknowns(a) + Unknowns(b);
      }
    }
  }

  lemma {:induction false} FlattenConcat(a: seq<Piece>, b: seq<Piece>)
    ensures Flatten(a + b) == Flatten(a) + Flatten(b)
  {
    if a == [] {
      assert a + b == b;
    } else {
      var h := (match a[0] case Token(k) => k case Unknown(c) => [c]);
      assert (a + b)[0] == a[0] && (a + b)[1..] == a[1..] + b;
      calc {
        Flatten(a + b);
        h + Flatten(a[1..] + b);
        { FlattenConcat(a[1..], b); }
        h + (Flatten(a[1..]) + Flatten(b));
        (h + Flatten(a[1..])) + Flatten(b);
        Flatten(a) + Flatten(b);
      }
    }
  }

  /** The longest non-empty key at the start of `s[i..]`, searched over the whole key set
      (the `for k in keys ... break` of the source). */
  method LongestKeyAt(vocab: Vocab, s: seq<char>, i: nat) returns (n: nat)
    requires i <= |s|
    ensures n == LongestMatch(vocab, s[i..])
  {
    var rest := s[i..];
    var remaining := vocab.Keys;
    n := 0;
    while remaining != {}
      invariant remaining <= vocab.Keys
      invariant n <= |rest| && (n > 0 ==> rest[..n] in vocab)
      invariant forall k | k in vocab.Keys && k !in remaining && k != [] && IsPrefix(k, rest) :: |k| <= n
      decreases |remaining|
    {
      var k :| k in remaining;
      if k != [] && IsPrefix(k, rest) && |k| > n {
        n := |k|;
      }
      remaining := remaining - {k};
    }
    forall m | n < m <= |rest| ensures rest[..m] !in vocab {
      if rest[..m] in vocab {
        assert IsPrefix(rest[..m], rest);
      }
    }
    LongestMatchUnique(vocab, rest, n);
  }

  /** The piece the scan takes at the start of `t`. */
  function Head(vocab: Vocab, t: seq<char>): Piece
    requires t != []
  {
    var n := LongestMatch(vocab, t);
    if n > 0 then Token(t[..n]) else Unknown(t[0])
  }

  /** How much of `t` the first piece covers. */
  function HeadWidth(vocab: Vocab, t: seq<char>): (w: nat)
    requires t != []
    ensures 0 < w <= |t|
  {
    var n := LongestMatch(vocab, t);
    if n > 0 then n else 1
  }

  /** The scan takes `Head` first and goes on after `HeadWidth` characters. */
  lemma ScanHead(vocab: Vocab, t: seq<char>)
    requires t != []
    ensures Scan(vocab, t) == [Head(vocab, t)] + Scan(vocab, t[HeadWidth(vocab, t)..])
  {
    ScanStep(vocab, t);
  }

  /** One iteration of the scan loop: the piece taken at `i` and the index after it. */
  lemma ScanAdvance(vocab: Vocab, s: seq<char>, i: nat, done: seq<Piece>)
    requires i < |s| && done + Scan(vocab, s[i..]) == Scan(vocab, s)
    ensures (done + [Head(vocab, s[i..])]) + Scan(vocab, s[i + HeadWidth(vocab, s[i..])..]) == Scan(vocab, s)
  {
    var t := s[i..];
    var w := HeadWidth(vocab, t);
    ScanHead(vocab, t);
    assert t[w..] == s[i + w..];
    var rest := Scan(vocab, s[i + w..]);
    assert (done + [Head(vocab, t)]) + rest == done + ([Head(vocab, t)] + rest);
  }

  /** The piece and width the loop computes from the key length it finds at `i`. */
  lemma HeadAt(vocab: Vocab, s: seq<char>, i: nat, len: nat)
    requires i < |s| && len == LongestMatch(vocab, s[i..])
    ensures Head(vocab, s[i..]) == if len > 0 then Token(s[i..i + len]) else Unknown(s[i])
    ensures HeadWidth(vocab, s[i..]) == if len > 0 then len else 1
  {
    assert len > 0 ==> s[i..][..len] == s[i..i + len];
  }

  /** Appending a piece appends its key or its character to the matching list. */
  lemma AppendPiece(done: seq<Piece>, p: Piece)
    ensures Tokens(done + [p]) == Tokens(done) + (if p.Token? then [p.key] else [])
    ensures Unknowns(done + [p]) == Unknowns(done) + (if p.Unknown? then [p.ch] else [])
  {
    TokensConcat(done, [p]);
    UnknownsConcat(done, [p]);
    assert [p][1..] == [];
  }

  /** The `while i < n` loop of `tokenize_ipa`: index `i`, the `tokens` and `unknown` lists. */
  method GreedyScan(vocab: Vocab, s: seq<char>) returns (tokens: seq<seq<char>>, unknown: seq<char>)
    ensures tokens == Tokens(Scan(vocab, s)) && unknown == Unknowns(Scan(vocab, s))
  {
    tokens, unknown := [], [];
    ghost var done: seq<Piece> := [];
    var i, n := 0, |s|;
    while i < n
      invariant i <= n == |s|
      invariant done + Scan(vocab, s[i..]) == Scan(vocab, s)
      invariant tokens == Tokens(done) && unknown == Unknowns(done)
      decreases n - i
    {
      var len := LongestKeyAt(vocab, s, i);
      ghost var piece := Head(vocab, s[i..]);
      ghost var next := i + HeadWidth(vocab, s[i..]);
      ScanAdvance(vocab, s, i, done);
      AppendPiece(done, piece);
      HeadAt(vocab, s, i, len);
      if len > 0 {
        tokens := tokens + [s[i..i + len]];
        i := i + len;
      } else {
        unknown := unknown + [s[i]];
        i := i + 1;
      }
      done := done + [piece];
      assert i == next;
    }
    assert s[i..] == [];
    assert done == Scan(vocab, s);
  }

  /** `tokenize_ipa`: the preprocessed string cut greedily into keys and unknown characters. */
  method TokenizeIpa(ipa: seq<char>, vocab: Vocab, keepStress: bool) returns (tokens: seq<seq<char>>, unknown: seq<char>)
    ensures var ps := Scan(vocab, Preprocess(ipa, vocab, keepStress));
      tokens == Tokens(ps) && unknown == Unknowns(ps)
  {
    var s := Preprocess(ipa, vocab, keepStress);
    tokens, unknown := GreedyScan(vocab, s);
  }

  // ---------------------------------------------------------------- properties of the scan

  /** Every piece is a non-empty key or a single uncovered character, and the pieces, read
      in order, give back the scanned string. */
  lemma ScanCovers(vocab: Vocab, s: seq<char>)
    ensures Flatten(Scan(vocab, s)) == s
    ensures forall p | p in Scan(vocab, s) :: p.Token? ==> p.key != [] && p.key in vocab
  {
    ScanFlattens(vocab, s);
  }

  lemma {:induction false} ScanFlattens(vocab: Vocab, s: seq<char>)
    ensures Flatten(Scan(vocab, s)) == s
    decreases |s|
  {
    if s != [] {
      var w := ScanFirst(vocab, s);
      ScanFlattens(vocab, s[w..]);
      var ps := Scan(vocab, s);
      FlattenConcat([ps[0]], Scan(vocab, s[w..]));
      assert s == s[..w] + s[w..];
    }
  }

  /** Sum of the lengths of the tokens. */
  function TotalLength(toks: seq<seq<char>>): nat {
    if toks == [] then 0 else |toks[0]| + TotalLength(toks[1..])
  }

  lemma {:induction false} FlattenLength(ps: seq<Piece>)
    ensures |Flatten(ps)| == TotalLength(Tokens(ps)) + |Unknowns(ps)|
  {
    if ps != [] {
      FlattenLength(ps[1..]);
      if ps[0].Token? {
        assert Tokens(ps) == [ps[0].key] + Tokens(ps[1..]);
        assert ([ps[0].key] + Tokens(ps[1..]))[1..] == Tokens(ps[1..]);
      } else {
        assert Tokens(ps) == Tokens(ps[1..]);
      }
    }
  }

  /** The token lengths and the number of unknown characters add up to the length of the
      scanned string. */
  lemma ScanLength(vocab: Vocab, s: seq<char>)
    ensures var ps := Scan(vocab, s); TotalLength(Tokens(ps)) + |Unknowns(ps)| == |s|
  {
    ScanCovers(vocab, s);
    FlattenLength(Scan(vocab, s));
  }

  /** The piece at the start of `rest` is the longest key there; a character is unknown
      only when no non-empty key starts there. */
  predicate GreedyAt(vocab: Vocab, rest: seq<char>, p: Piece) {
    match p
    case Token(k) =>
      (k != [] && IsPrefix(k, rest) && k in vocab && forall m | |k| < m <= |rest| :: rest[..m] !in vocab)
    case Unknown(c) =>
      (rest != [] && c == rest[0] && forall m | 0 < m <= |rest| :: rest[..m] !in vocab)
  }

  /** The first piece of the scan is the greedy choice at the start of the string. */
  lemma ScanHeadGreedy(vocab: Vocab, s: seq<char>)
    requires s != []
    ensures GreedyAt(vocab, s, Scan(vocab, s)[0])
  {
    var n := LongestMatch(vocab, s);
    if n > 0 {
      assert |s[..n]| == n && s[..n][..n] == s[..n];
    }
  }

  /** The piece the scan starts with covers `s[..w]` and the rest is scanned from `s[w..]`. */
  lemma ScanFirst(vocab: Vocab, s: seq<char>) returns (w: nat)
    requires s != []
    ensures 0 < w <= |s|
    ensures Scan(vocab, s) == [Scan(vocab, s)[0]] + Scan(vocab, s[w..])
    ensures Flatten([Scan(vocab, s)[0]]) == s[..w]
  {
    var n := LongestMatch(vocab, s);
    w := if n > 0 then n else 1;
    var p := Scan(vocab, s)[0];
    assert Flatten([p]) == (match p case Token(k) => k case Unknown(c) => [c]) + Flatten([]);
  }

  /** Every piece of the scan is the greedy choice at the position where it starts. */
  lemma {:induction false} ScanGreedy(vocab: Vocab, s: seq<char>)
    ensures var ps := Scan(vocab, s);
      forall j | 0 <= j < |ps| ::
        |Flatten(ps[..j])| <= |s| && GreedyAt(vocab, s[|Flatten(ps[..j])|..], ps[j])
    decreases |s|
  {
    var ps := Scan(vocab, s);
    if s != [] {
      var w := ScanFirst(vocab, s);
      var tail := s[w..];
      ScanGreedy(vocab, tail);
      var qs := Scan(vocab, tail);
      forall j | 0 <= j < |ps|
        ensures |Flatten(ps[..j])| <= |s| && GreedyAt(vocab, s[|Flatten(ps[..j])|..], ps[j])
      {
        if j == 0 {
          assert ps[..0] == [] && s[0..] == s;
          ScanHeadGreedy(vocab, s);
        } else {
          GreedyShift(vocab, s, w, ps[0], qs, j);
        }
      }
    }
  }

  /** A piece greedy at its place in `s[w..]` stays greedy when a first piece covering
      `s[..w]` is put in front. */
  lemma GreedyShift(vocab: Vocab, s: seq<char>, w: nat, p: Piece, qs: seq<Piece>, j: nat)
    requires w <= |s| && Flatten([p]) == s[..w]
    requires 0 < j <= |qs|
    requires var f := Flatten(qs[..j - 1]);
      |f| <= |s| - w && GreedyAt(vocab, s[w..][|f|..], qs[j - 1])
    ensures var ps := [p] + qs;
      |Flatten(ps[..j])| <= |s| && GreedyAt(vocab, s[|Flatten(ps[..j])|..], ps[j])
  {
    var ps := [p] + qs;
    var f := Flatten(qs[..j - 1]);
    assert ps[..j] == [p] + qs[..j - 1];
    FlattenConcat([p], qs[..j - 1]);
    assert s[w..][|f|..] == s[w + |f|..];
    assert ps[j] == qs[j - 1];
  }

  /** With a vocabulary of single characters the greedy scan is a lookup per character. */
  lemma {:induction false} ScanSingleChars(vocab: Vocab, s: seq<char>)
    requires forall k | k in vocab :: |k| == 1
    ensures var ps := Scan(vocab, s);
      |ps| == |s| && forall j | 0 <= j < |s| :: ps[j] == if [s[j]] in vocab then Token([s[j]]) else Unknown(s[j])
    decreases |s|
  {
    if s != [] {
      var n := LongestMatch(vocab, s);
      assert n <= 1;
      assert s[..1] == [s[0]];
      ScanSingleChars(vocab, s[1..]);
    }
  }

  /** "/ kˈasa /" has no outer whitespace to trim. */
  lemma CasaStrip()
    ensures Strip("/ kˈasa /") == "/ kˈasa /"
  {
    StripByKeeps("/ kˈasa /", IsSpace);
  }

  /** Trimming the slashes of "/ kˈasa /" keeps the spaces inside them. */
  lemma CasaSlashes()
    ensures StripSlashes("/ kˈasa /") == " kˈasa "
  {
    assert "/ kˈasa /" == "/" + " kˈasa " + "/";
    SlashesAround(" kˈasa ");
  }

  /** One slash on each side of text that neither starts nor ends with one is trimmed. */
  lemma SlashesAround(m: seq<char>)
    requires |m| >= 1 && m[0] != '/' && m[|m| - 1] != '/'
    ensures StripSlashes("/" + m + "/") == m
  {
    var s := "/" + m + "/";
    assert s[1] == m[0] && s[|s| - 2] == m[|m| - 1];
    StripByOne(s, c => c == '/');
    assert s[1..|s| - 1] == m;
  }

  /** " kˈasa " holds no t, so the ligature rewrite leaves it alone. */
  lemma CasaNoLigature()
    ensures Replace(" kˈasa ", "tʃ", "ʧ") == " kˈasa "
  {
    var t := " kˈasa ";
    assert 't' !in t;
    SubAbsent(Plain("tʃ", "ʧ"), t, None);
  }

  /** With a vocabulary that keeps the stress mark and spells the affricate as the
      ligature, preprocessing the `g2p` output for "casa" gives " kˈasa ". */
  lemma PreprocessCasaWith(vocab: Vocab)
    requires "ˈ" in vocab && "ʧ" in vocab && "tʃ" !in vocab
    ensures Preprocess("/ kˈasa /", vocab, true) == " kˈasa "
  {
    CasaStrip();
    CasaSlashes();
    CasaNoLigature();
  }

  /** A scan that found a key at every step lists those keys and no unknown character. */
  lemma {:induction false} AllTokens(ps: seq<Piece>)
    requires forall j | 0 <= j < |ps| :: ps[j].Token?
    ensures |Tokens(ps)| == |ps| && forall j | 0 <= j < |ps| :: Tokens(ps)[j] == ps[j].key
    ensures Unknowns(ps) == []
  {
    if ps != [] {
      AllTokens(ps[1..]);
    }
  }

  /** When every character of " kˈasa " is a key, the scan lists them all, one
      character each, and nothing is unknown. */
  lemma ScanCasaWith(vocab: Vocab)
    requires forall k | k in vocab :: |k| == 1
    requires " " in vocab && "k" in vocab && "ˈ" in vocab && "a" in vocab && "s" in vocab
    ensures var ps := Scan(vocab, " kˈasa ");
      Tokens(ps) == [" ", "k", "ˈ", "a", "s", "a", " "] && Unknowns(ps) == []
  {
    var t := " kˈasa ";
    var want: seq<seq<char>> := [" ", "k", "ˈ", "a", "s", "a", " "];
    assert |t| == 7 == |want|;
    assert forall j | 0 <= j < 7 :: want[j] == [t[j]];
    assert forall j | 0 <= j < 7 :: want[j] in vocab;
    ScanSingleChars(vocab, t);
    var ps := Scan(vocab, t);
    assert forall j | 0 <= j < 7 :: ps[j] == Token(want[j]);
    AllTokens(ps);
  }
}
