/** Character classes and the few `str` methods the pipeline relies on:
    `strip`, `strip(chars)`, `split(" ")` and `" ".join`. Python strings are
    sequences of code points, modelled as `seq<char>`. */
module Strings {

  datatype Option<T> = None | Some(value: T)

  /** Python's `str.isspace`, which is also what the regex class `\s` matches
      in a `str` pattern. */
  predicate IsSpace(c: char) {
    || ('\t' <= c <= '\r')
    || ('\U{1C}' <= c <= '\U{1F}')
    || c == ' '
    || c == '\U{85}' || c == '\U{A0}' || c == '\U{1680}'
    || ('\U{2000}' <= c <= '\U{200A}')
    || c == '\U{2028}' || c == '\U{2029}' || c == '\U{202F}' || c == '\U{205F}'
    || c == '\U{3000}'
  }

  /** VOWELS and VOWELS_ACCENTED of the grapheme module. */
  const Vowels: seq<char> := "aeiou"
  const AccentedVowels: seq<char> := "áéíóú"
  const AllVowels: seq<char> := "aeiouáéíóú"

  predicate IsPlainVowel(c: char) { c == 'a' || c == 'e' || c == 'i' || c == 'o' || c == 'u' }
  predicate IsAccented(c: char) { c == 'á' || c == 'é' || c == 'í' || c == 'ó' || c == 'ú' }
  predicate IsVowel(c: char) { IsPlainVowel(c) || IsAccented(c) }

  lemma VowelClasses(c: char)
    ensures IsPlainVowel(c) <==> c in Vowels
    ensures IsAccented(c) <==> c in AccentedVowels
    ensures IsVowel(c) <==> c in AllVowels
  {
  }

  /** The stress marker ˈ is no vowel, plain or accented. */
  lemma MarkerIsNoVowel()
    ensures !IsVowel('ˈ') && !IsAccented('ˈ')
  {
  }

  /** Number of occurrences of `c` in `s`. */
  function Count(c: char, s: seq<char>): (n: nat)
    ensures n <= |s|
    ensures n == 0 <==> c !in s
  {
    if s == [] then 0 else (if s[0] == c then 1 else 0) + Count(c, s[1..])
  }

  lemma {:induction false} CountConcat(c: char, a: seq<char>, b: seq<char>)
    ensures Count(c, a + b) == Count(c, a) + Count(c, b)
  {
    if a == [] {
      assert a + b == b;
    } else {
      assert (a + b)[1..] == a[1..] + b;
      CountConcat(c, a[1..], b);
    }
  }

  /** Counting in two halves of a string. */
  lemma CountSplit(c: char, s: seq<char>, m: nat)
    requires m <= |s|
    ensures Count(c, s) == Count(c, s[..m]) + Count(c, s[m..])
  {
    assert s == s[..m] + s[m..];
    CountConcat(c, s[..m], s[m..]);
  }

  /** Two strings of one length holding `c` at the same positions hold it equally often. */
  lemma {:induction false} CountPointwise(c: char, a: seq<char>, b: seq<char>)
    requires |a| == |b|
    requires forall k | 0 <= k < |a| :: a[k] == c <==> b[k] == c
    ensures Count(c, a) == Count(c, b)
  {
    if a != [] {
      assert a[0] == c <==> b[0] == c;
      forall k | 0 <= k < |a| - 1 ensures a[1..][k] == c <==> b[1..][k] == c {
        assert a[1..][k] == a[k + 1] && b[1..][k] == b[k + 1];
      }
      CountPointwise(c, a[1..], b[1..]);
    }
  }

  /** The number of leading characters of `s` that `drop` accepts. */
  function Leading(s: seq<char>, drop: char -> bool): (n: nat)
    ensures n <= |s|
    ensures forall k | 0 <= k < n :: drop(s[k])
    ensures n < |s| ==> !drop(s[n])
  {
    if s == [] || !drop(s[0]) then 0 else 1 + Leading(s[1..], drop)
  }

  /** The leading run itself, as a slice. */
  lemma LeadingAll(s: seq<char>, drop: char -> bool)
    ensures forall k | 0 <= k < |s[..Leading(s, drop)]| :: drop(s[..Leading(s, drop)][k])
  {
    var n := Leading(s, drop);
    forall k | 0 <= k < n ensures drop(s[..n][k]) {
      assert s[..n][k] == s[k];
    }
  }

  /** The number of trailing characters of `s` that `drop` accepts. */
  function Trailing(s: seq<char>, drop: char -> bool): (n: nat)
    ensures n <= |s|
    ensures forall k | |s| - n <= k < |s| :: drop(s[k])
    ensures n < |s| ==> !drop(s[|s| - n - 1])
  {
    if s == [] || !drop(s[|s| - 1]) then 0 else 1 + Trailing(s[..|s| - 1], drop)
  }

  /** Python's `str.strip(chars)`: drop the accepted characters at both ends. The
      result is the slice of `s` that starts at `Leading(s, drop)`. */
  function StripBy(s: seq<char>, drop: char -> bool): (r: seq<char>)
    ensures Leading(s, drop) + |r| <= |s|
    ensures r == s[Leading(s, drop)..Leading(s, drop) + |r|]
    ensures forall k | Leading(s, drop) + |r| <= k < |s| :: drop(s[k])
    ensures r == [] || (!drop(r[0]) && !drop(r[|r| - 1]))
  {
    var a := Leading(s, drop);
    var rest := s[a..];
    rest[..|rest| - Trailing(rest, drop)]
  }

  /** Nothing is stripped when neither end is dropped. */
  lemma StripByKeeps(s: seq<char>, drop: char -> bool)
    requires s != [] && !drop(s[0]) && !drop(s[|s| - 1])
    ensures StripBy(s, drop) == s
  {
    assert Leading(s, drop) == 0;
    assert s[0..] == s;
    assert Trailing(s, drop) == 0;
  }

  /** One dropped character at each end of `s` goes, and nothing more. */
  lemma StripByOne(s: seq<char>, drop: char -> bool)
    requires |s| >= 3 && drop(s[0]) && drop(s[|s| - 1]) && !drop(s[1]) && !drop(s[|s| - 2])
    ensures StripBy(s, drop) == s[1..|s| - 1]
  {
    assert Leading(s[1..], drop) == 0;
    assert Leading(s, drop) == 1;
    var rest := s[1..];
    assert Trailing(rest[..|rest| - 1], drop) == 0;
    assert Trailing(rest, drop) == 1;
  }

  /** `str.strip()` with no argument. */
  function Strip(s: seq<char>): seq<char> { StripBy(s, IsSpace) }

  /** `str.strip('/')`. */
  function StripSlashes(s: seq<char>): seq<char> { StripBy(s, c => c == '/') }

  /** The first index of `c` in `s`. */
  function IndexOf(s: seq<char>, c: char): (k: nat)
    requires c in s
    ensures k < |s| && s[k] == c && c !in s[..k]
  {
    if s[0] == c then 0 else 1 + IndexOf(s[1..], c)
  }

  /** `" ".join(toks)`. */
  function Join(toks: seq<seq<char>>): seq<char> {
    if toks == [] then []
    else if |toks| == 1 then toks[0]
    else toks[0] + " " + Join(toks[1..])
  }

  /** `s.split(" ")`: every single space separates two (possibly empty) pieces.
      Joining the pieces back with spaces gives `s` again. */
  function Split(s: seq<char>): (toks: seq<seq<char>>)
    decreases |s|
    ensures |toks| >= 1
    ensures forall t | t in toks :: ' ' !in t
    ensures Join(toks) == s
  {
    if ' ' !in s then [s]
    else
      var k := IndexOf(s, ' ');
      var rest := Split(s[k + 1..]);
      assert Join([s[..k]] + rest) == s[..k] + " " + Join(rest) by {
        assert ([s[..k]] + rest)[1..] == rest;
      }
      assert s == s[..k] + " " + s[k + 1..];
      [s[..k]] + rest
  }

  /** Splitting undoes joining when no piece holds a space. */
  lemma {:induction false} SplitJoin(toks: seq<seq<char>>)
    requires |toks| >= 1
    requires forall t | t in toks :: ' ' !in t
    ensures Split(Join(toks)) == toks
  {
    if |toks| == 1 {
      assert toks == [toks[0]];
    } else {
      var rest := toks[1..];
      SplitJoin(rest);
      assert ' ' !in toks[0] by { assert toks[0] in toks; }
      SplitFirst(toks[0], Join(rest));
      assert toks == [toks[0]] + rest;
    }
  }

  /** Splitting a space-free piece, a space and more text cuts at that space. */
  lemma SplitFirst(a: seq<char>, b: seq<char>)
    requires ' ' !in a
    ensures Split(a + " " + b) == [a] + Split(b)
  {
    var s := a + " " + b;
    assert s[|a|] == ' ';
    var k := IndexOf(s, ' ');
    assert s[..|a|] == a;
    assert k == |a|;
    assert s[k + 1..] == b;
  }


  /** Every two neighbouring characters of `s` satisfy `ok`. */
  ghost predicate AllPairs(s: seq<char>, ok: (char, char) -> bool) {
    forall k | 0 <= k < |s| - 1 :: ok(s[k], s[k + 1])
  }

  lemma AllPairsConcat(a: seq<char>, b: seq<char>, ok: (char, char) -> bool)
    requires AllPairs(a, ok) && AllPairs(b, ok)
    requires a != [] && b != [] ==> ok(a[|a| - 1], b[0])
    ensures AllPairs(a + b, ok)
  {
    var s := a + b;
    forall k | 0 <= k < |s| - 1
      ensures ok(s[k], s[k + 1])
    {
      if k + 1 < |a| {
        assert s[k] == a[k] && s[k + 1] == a[k + 1];
      } else if k + 1 == |a| {
        assert s[k] == a[|a| - 1] && s[k + 1] == b[0];
      } else {
        assert s[k] == b[k - |a|] && s[k + 1] == b[k - |a| + 1];
      }
    }
  }

  lemma AllPairsSlice(s: seq<char>, lo: nat, hi: nat, ok: (char, char) -> bool)
    requires lo <= hi <= |s|
    requires AllPairs(s, ok)
    ensures AllPairs(s[lo..hi], ok)
  {
    var t := s[lo..hi];
    forall k | 0 <= k < |t| - 1
      ensures ok(t[k], t[k + 1])
    {
      assert t[k] == s[lo + k] && t[k + 1] == s[lo + k + 1];
    }
  }
}
