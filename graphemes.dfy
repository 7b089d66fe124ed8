/** `map_graphemes`: the ordered chain of orthography-to-phone rewrites applied
    to one word. Each stage below is one group of rules of the chain, in the
    order the chain applies them; later stages read what earlier ones wrote. */
module Graphemes {
  import opened Strings
  import opened Rewrite
  import opened Normalize

  /** The two module-level switches, passed explicitly: NASAL_ASSIMILATION and GLIDE_MODE
      (any mode other than "full" behaves as "safe"). */
  datatype Config = Config(nasalAssimilation: bool, glideMode: seq<char>)

  /** The values the module ships with. */
  const DefaultConfig := Config(false, "safe")

  /** The vowels that soften g and c and silence the u of gu/qu. */
  const FrontVowels: seq<char> := "eéií"

  predicate IsFront(c: char) { c == 'e' || c == 'é' || c == 'i' || c == 'í' }

  lemma FrontClass(c: char)
    ensures c in FrontVowels <==> IsFront(c)
  {
  }

  /** The character after position `k` of `w` is a front vowel. */
  predicate FrontNext(w: seq<char>, k: int) {
    0 <= k && k + 1 < |w| && IsFront(w[k + 1])
  }

  /** The temporary mark for a trill while the remaining r become taps. */
  const Placeholder: seq<char> := "RRR"

  /** The vowels after which a c is read as k by nasal assimilation: a, o, u, plain or accented. */
  const BackVowels: seq<char> := "aouáóú"

  predicate IsBack(c: char) { c == 'a' || c == 'o' || c == 'u' || c == 'á' || c == 'ó' || c == 'ú' }

  lemma BackClass(c: char)
    ensures c in BackVowels <==> IsBack(c)
  {
  }

  /** The text after an n starts with g, k, qu, or c followed by a, o or u (plain or
      accented): the contexts in which nasal assimilation applies. */
  predicate VelarAhead(rest: seq<char>) {
    || (|rest| >= 1 && (rest[0] == 'g' || rest[0] == 'k'))
    || (|rest| >= 2 && rest[0] == 'q' && rest[1] == 'u')
    || (|rest| >= 2 && rest[0] == 'c' && IsBack(rest[1]))
  }

  /** `n(?=ahead)` → ŋ. */
  function NasalRule(ahead: seq<seq<char>>): Rule {
    Rule("n", "ŋ", AnyBehind, AheadIn(ahead))
  }

  /** One assimilation rule: it keeps the length and writes only ŋ. */
  function Assimilate(w: seq<char>, ahead: seq<seq<char>>): (r: seq<char>)
    ensures |r| == |w|
    ensures forall c | c in r :: c in w || c == 'ŋ'
  {
    OneForOneLength(NasalRule(ahead), w, None);
    Sub(NasalRule(ahead), w, None)
  }

  /** An n at `k` whose following text matches `ahead` becomes ŋ; any other character
      stays. */
  lemma AssimilateAt(w: seq<char>, ahead: seq<seq<char>>, k: nat)
    requires k < |w|
    ensures Assimilate(w, ahead)[k] == if w[k] == 'n' && AheadOk(AheadIn(ahead), w[k + 1..]) then 'ŋ' else w[k]
  {
    SubOneForOne(NasalRule(ahead), w, None);
  }

  /** Optional assimilation of n before a velar: it keeps the length and writes only ŋ. */
  function NasalAssimilation(w: seq<char>): (r: seq<char>)
    ensures |r| == |w|
    ensures forall c | c in r :: c in w || c == 'ŋ'
  {
    Assimilate(Assimilate(Assimilate(Assimilate(w, ["g"]), ["k"]), ["q", "u"]), ["c", BackVowels])
  }

  /** Exactly the n followed by g, k, qu or c + a/o/u become ŋ; every other character is
      kept, so a word without n is unchanged. */
  lemma NasalAssimilationPlaces(w: seq<char>)
    ensures forall k | 0 <= k < |w| ::
      NasalAssimilation(w)[k] == if w[k] == 'n' && VelarAhead(w[k + 1..]) then 'ŋ' else w[k]
    ensures 'n' !in w ==> NasalAssimilation(w) == w
  {
    var r := NasalAssimilation(w);
    forall k | 0 <= k < |w|
      ensures r[k] == if w[k] == 'n' && VelarAhead(w[k + 1..]) then 'ŋ' else w[k]
    {
      AssimilationAt(w, k);
    }
    if 'n' !in w {
      assert forall k | 0 <= k < |w| :: r[k] == w[k];
    }
  }

  /** A look-ahead of two classes reads the next two characters. */
  lemma AheadTwo(rest: seq<char>, c1: seq<char>, c2: seq<char>)
    ensures AheadOk(AheadIn([c1, c2]), rest) <==> |rest| >= 2 && rest[0] in c1 && rest[1] in c2
  {
    if |rest| >= 2 && rest[0] in c1 && rest[1] in c2 {
      assert forall k | 0 <= k < 2 :: rest[k] in [c1, c2][k];
    }
  }

  /** The four assimilation rules, applied in turn, rewrite exactly the n in a velar context
      at position `k`: each rule reads only letters the earlier ones never change. */
  lemma AssimilationAt(w: seq<char>, k: nat)
    requires k < |w|
    ensures NasalAssimilation(w)[k] == if w[k] == 'n' && VelarAhead(w[k + 1..]) then 'ŋ' else w[k]
  {
    var w1 := Assimilate(w, ["g"]);
    var w2 := Assimilate(w1, ["k"]);
    var w3 := Assimilate(w2, ["q", "u"]);
    AssimilateAt(w, ["g"], k);
    AssimilateAt(w1, ["k"], k);
    AssimilateAt(w2, ["q", "u"], k);
    AssimilateAt(w3, ["c", BackVowels], k);
    if w[k] == 'n' {
      AssimilationAhead(w, k);
    }
  }

  /** How each rule reads the letters after an n at `k`: the earlier rules turn only n into
      ŋ, so the letters g, k, q, u, c, a, o, u the later rules look for are still there. */
  lemma AssimilationAhead(w: seq<char>, k: nat)
    requires k < |w|
    ensures var w1 := Assimilate(w, ["g"]);
      var w2 := Assimilate(w1, ["k"]);
      var w3 := Assimilate(w2, ["q", "u"]);
      && (AheadOk(AheadIn(["g"]), w[k + 1..]) <==> k + 1 < |w| && w[k + 1] == 'g')
      && (AheadOk(AheadIn(["k"]), w1[k + 1..]) <==> k + 1 < |w| && w[k + 1] == 'k')
      && (AheadOk(AheadIn(["q", "u"]), w2[k + 1..]) <==> k + 2 < |w| && w[k + 1] == 'q' && w[k + 2] == 'u')
      && (AheadOk(AheadIn(["c", BackVowels]), w3[k + 1..]) <==> k + 2 < |w| && w[k + 1] == 'c' && IsBack(w[k + 2]))
      && (VelarAhead(w[k + 1..]) <==>
            (k + 1 < |w| && (w[k + 1] == 'g' || w[k + 1] == 'k')) ||
            (k + 2 < |w| && ((w[k + 1] == 'q' && w[k + 2] == 'u') || (w[k + 1] == 'c' && IsBack(w[k + 2])))))
  {
    var w1 := Assimilate(w, ["g"]);
    var w2 := Assimilate(w1, ["k"]);
    AheadOne(w[k + 1..], "g");
    if k + 1 < |w| { assert w[k + 1..][0] == w[k + 1]; }
    if k + 2 < |w| { assert w[k + 1..][1] == w[k + 2]; }
    ReadsThrough(w, ["g"], k);
    AheadOne(w1[k + 1..], "k");
    ReadsThrough(w1, ["k"], k);
    AheadTwo(w2[k + 1..], "q", "u");
    AheadLast(w2, k);
    ReadsThrough(w2, ["q", "u"], k);
  }

  /** The last rule's look-ahead, c and then a back vowel. */
  lemma AheadLast(w2: seq<char>, k: nat)
    requires k < |w2|
    ensures var w3 := Assimilate(w2, ["q", "u"]);
      AheadOk(AheadIn(["c", BackVowels]), w3[k + 1..]) <==> k + 2 < |w3| && w3[k + 1] == 'c' && IsBack(w3[k + 2])
  {
    var w3 := Assimilate(w2, ["q", "u"]);
    AheadTwo(w3[k + 1..], "c", BackVowels);
    if k + 2 < |w3| {
      assert w3[k + 1..][0] == w3[k + 1] && w3[k + 1..][1] == w3[k + 2];
      BackClass(w3[k + 2]);
    }
  }

  /** One rule keeps the two letters after `k` unless they are n. */
  lemma ReadsThrough(w: seq<char>, ahead: seq<seq<char>>, k: nat)
    requires k < |w|
    ensures var v := Assimilate(w, ahead);
      && (k + 1 < |w| ==> v[k + 1..][0] == v[k + 1] && (v[k + 1] == w[k + 1] || (w[k + 1] == 'n' && v[k + 1] == 'ŋ')))
      && (k + 2 < |w| ==> v[k + 1..][1] == v[k + 2] && (v[k + 2] == w[k + 2] || (w[k + 2] == 'n' && v[k + 2] == 'ŋ')))
  {
    if k + 1 < |w| { AssimilateAt(w, ahead, k + 1); }
    if k + 2 < |w| { AssimilateAt(w, ahead, k + 2); }
  }

  /** ch→ʧ; an initial x→s, every other x→ks. No ch and no x is left, a word starting
      with ch starts with ʧ and one starting with x starts with s. */
  function Affricates(w: seq<char>): (r: seq<char>)
    ensures forall c | c in r :: c in w || c == 'ʧ' || c == 's' || c == 'k'
    ensures NoPair(r, 'c', 'h') && 'x' !in r
    ensures |w| >= 2 && w[0] == 'c' && w[1] == 'h' ==> |r| > 0 && r[0] == 'ʧ'
    ensures |w| > 0 && w[0] == 'x' ==> |r| > 0 && r[0] == 's'
  {
    var w1 := Replace(w, "ch", "ʧ");
    var w2 := if |w1| > 0 && w1[0] == 'x' then "s" + w1[1..] else w1;
    AffricatesSteps(w, w1, w2);
    Replace(w2, "x", "ks")
  }

  /** What the ch rule and the initial-x rule leave for the x rule. */
  lemma AffricatesSteps(w: seq<char>, w1: seq<char>, w2: seq<char>)
    requires w1 == Replace(w, "ch", "ʧ")
    requires w2 == if |w1| > 0 && w1[0] == 'x' then "s" + w1[1..] else w1
    ensures forall c | c in w2 :: c in w1 || c == 's'
    ensures NoPair(Replace(w2, "x", "ks"), 'c', 'h')
    ensures |w| >= 2 && w[0] == 'c' && w[1] == 'h' ==> |w2| > 0 && w2[0] == 'ʧ'
    ensures |w| > 0 && w[0] == 'x' ==> |w2| > 0 && w2[0] == 's'
    ensures |w2| > 0 && w2[0] != 'x' ==> Replace(w2, "x", "ks")[0] == w2[0]
  {
    ReplaceLeavesNoPair(w, "ch", "ʧ");
    assert NoPair(w2, 'c', 'h');
    ReplaceKeepsNoPair(w2, "x", "ks", 'c', 'h');
    if |w| >= 2 && w[0] == 'c' && w[1] == 'h' {
      assert w[..2] == "ch";
      ReplaceHit(w, "ch", "ʧ");
    }
    if |w| > 0 && w[0] == 'x' {
      SubKeepsHead(Plain("ch", "ʧ"), w, None);
    }
    if |w2| > 0 && w2[0] != 'x' {
      SubKeepsHead(Plain("x", "ks"), w2, None);
    }
  }

  /** `g(?=[eéií])` → x. */
  const SoftG := Rule("g", "x", AnyBehind, AheadIn([FrontVowels]))

  /** `c(?=[eéií])` → s. */
  const SoftC := Rule("c", "s", AnyBehind, AheadIn([FrontVowels]))

  /** The g and j rules: no j is left and the only letter written is x. */
  function VelarFricative(w: seq<char>): (r: seq<char>)
    ensures 'j' !in r
    ensures forall c | c in r :: c in w || c == 'x'
  {
    Replace(Sub(SoftG, w, None), "j", "x")
  }

  /** g before e/é/i/í and every j become the velar fricative x; no other letter changes. */
  lemma VelarFricativePlaces(w: seq<char>)
    ensures var r := VelarFricative(w);
      |r| == |w| &&
      forall k | 0 <= k < |w| :: r[k] == if w[k] == 'j' || (w[k] == 'g' && FrontNext(w, k)) then 'x' else w[k]
  {
    var r := VelarFricative(w);
    OneForOneLength(SoftG, w, None);
    OneForOneLength(Plain("j", "x"), Sub(SoftG, w, None), None);
    forall k | 0 <= k < |w|
      ensures r[k] == if w[k] == 'j' || (w[k] == 'g' && FrontNext(w, k)) then 'x' else w[k]
    {
      SubBeforeAt(SoftG, w, k);
      ReplaceCharAt(Sub(SoftG, w, None), "j", "x", k);
      if k + 1 < |w| { FrontClass(w[k + 1]); }
    }
  }

  /** `a + "u(?=[eéií])"` → `c`. */
  function SilentURule(a: char, c: char): Rule {
    Rule([a, 'u'], [c], AnyBehind, AheadIn([FrontVowels]))
  }

  /** `re.sub(a + "u(?=[eéií])", c)`: the u between `a` and a front vowel is silent, so no
      such u is left; the only letter written is `c`. */
  function SilentU(w: seq<char>, a: char, c: char): (r: seq<char>)
    requires a !in FrontVowels && c !in FrontVowels && c != 'u'
    ensures NoPairBefore(r, a, 'u', FrontVowels)
    ensures forall d | d in r :: d in w || d == c
  {
    SubLeavesNoPairBefore(SilentURule(a, c), w, None);
    Sub(SilentURule(a, c), w, None)
  }

  /** Position `k` of `w` holds a ü right after a g. */
  predicate GueAt(w: seq<char>, k: int) {
    0 < k < |w| && w[k - 1] == 'g' && w[k] == 'ü'
  }

  /** gü→gw: the only letter written is w. */
  function Dieresis(w: seq<char>): (r: seq<char>)
    ensures forall c | c in r :: c in w || c == 'g' || c == 'w'
  {
    Replace(w, "gü", "gw")
  }

  /** Exactly the ü right after a g becomes w. */
  lemma DieresisPlaces(w: seq<char>)
    ensures |Dieresis(w)| == |w|
    ensures forall k | 0 <= k < |w| :: Dieresis(w)[k] == if GueAt(w, k) then 'w' else w[k]
  {
    ReplaceSecondOfPair(w, "gü", "gw");
  }

  /** The diaeresis rule writes no gu and leaves no gü. */
  lemma DieresisLeaves(w: seq<char>)
    requires NoPairBefore(w, 'g', 'u', FrontVowels)
    ensures NoPairBefore(Dieresis(w), 'g', 'u', FrontVowels) && NoPair(Dieresis(w), 'g', 'ü')
  {
    var r := Dieresis(w);
    DieresisPlaces(w);
    forall k | 0 <= k < |r| - 1
      ensures !(r[k] == 'g' && r[k + 1] == 'ü')
      ensures k < |r| - 2 ==> !(r[k] == 'g' && r[k + 1] == 'u' && r[k + 2] in FrontVowels)
    {
      assert r[k] == 'g' ==> w[k] == 'g';
      assert r[k + 1] == 'u' ==> w[k + 1] == 'u';
      if k < |r| - 2 {
        assert r[k + 2] in FrontVowels ==> r[k + 2] == w[k + 2];
      }
    }
  }

  /** The velar rules: no j is left, no gu stands before a front vowel and no gü remains;
      the only letters written are x, g and w. */
  function Velars(w: seq<char>): (r: seq<char>)
    ensures forall c | c in r :: c in w || c == 'x' || c == 'g' || c == 'w'
    ensures 'j' !in r
    ensures NoPairBefore(r, 'g', 'u', FrontVowels) && NoPair(r, 'g', 'ü')
  {
    var w2 := SilentU(VelarFricative(w), 'g', 'g');
    DieresisLeaves(w2);
    Dieresis(w2)
  }

  /** The c and z rules: no c and no z is left; the only letters written are s and k. */
  function SibilantC(w: seq<char>): (r: seq<char>)
    ensures 'c' !in r && 'z' !in r
    ensures forall c | c in r :: c in w || c == 's' || c == 'k'
  {
    Replace(Replace(Sub(SoftC, w, None), "z", "s"), "c", "k")
  }

  /** c before e/é/i/í→s, every z→s, every other c→k: exactly those letters change. */
  lemma SibilantPlaces(w: seq<char>)
    ensures var r := SibilantC(w);
      |r| == |w| &&
      forall k | 0 <= k < |w| ::
        r[k] == if w[k] == 'c' then (if FrontNext(w, k) then 's' else 'k')
                else if w[k] == 'z' then 's' else w[k]
  {
    var r := SibilantC(w);
    var w1 := Sub(SoftC, w, None);
    OneForOneLength(SoftC, w, None);
    OneForOneLength(Plain("z", "s"), w1, None);
    OneForOneLength(Plain("c", "k"), Replace(w1, "z", "s"), None);
    forall k | 0 <= k < |w|
      ensures r[k] == if w[k] == 'c' then (if FrontNext(w, k) then 's' else 'k')
                      else if w[k] == 'z' then 's' else w[k]
    {
      SubBeforeAt(SoftC, w, k);
      if k + 1 < |w| { FrontClass(w[k + 1]); }
      ReplaceCharAt(w1, "z", "s", k);
      ReplaceCharAt(Replace(w1, "z", "s"), "c", "k", k);
    }
  }

  /** The c, z and qu rules: no c and no z remain, no qu stands before a front vowel; the
      only letters written are s and k. */
  function Sibilants(w: seq<char>): (r: seq<char>)
    ensures 'c' !in r && 'z' !in r
    ensures NoPairBefore(r, 'q', 'u', FrontVowels)
    ensures forall c | c in r :: c in w || c == 's' || c == 'k'
  {
    SilentU(SibilantC(w), 'q', 'k')
  }

  /** `hi(?=[vowel])` → j. */
  const HiRule := Rule("hi", "j", AnyBehind, AheadIn([AllVowels]))

  /** `hu(?=[vowel])` → w. */
  const HuRule := Rule("hu", "w", AnyBehind, AheadIn([AllVowels]))

  /** hi/hu before a vowel become the glides j/w; every other h is silent, so no h remains. */
  function Aspirates(w: seq<char>): (r: seq<char>)
    ensures 'h' !in r
    ensures forall c | c in r :: c in w || c == 'j' || c == 'w'
  {
    Replace(Sub(HuRule, Sub(HiRule, w, None), None), "h", "")
  }

  /** The h rules read as one left-to-right pass: an h followed by i or u and then a vowel
      makes that i or u the glide j or w, and every other h is silent. */
  function SpellH(s: seq<char>): (r: seq<char>)
    ensures 'h' !in r
    decreases |s|
  {
    if s == [] then []
    else if |s| >= 3 && s[0] == 'h' && s[1] == 'i' && IsVowel(s[2]) then "j" + SpellH(s[2..])
    else if |s| >= 3 && s[0] == 'h' && s[1] == 'u' && IsVowel(s[2]) then "w" + SpellH(s[2..])
    else if s[0] == 'h' then SpellH(s[1..])
    else [s[0]] + SpellH(s[1..])
  }

  /** Where the hi and hu rules match. */
  lemma GlideRules(y: seq<char>, p: Option<char>)
    ensures MatchesAt(HiRule, y, p) <==> |y| >= 3 && y[0] == 'h' && y[1] == 'i' && IsVowel(y[2])
    ensures MatchesAt(HuRule, y, p) <==> |y| >= 3 && y[0] == 'h' && y[1] == 'u' && IsVowel(y[2])
  {
    if |y| >= 3 {
      VowelClasses(y[2]);
      assert y[2..][0] == y[2];
      assert y[..2] == [y[0], y[1]];
    }
  }

  /** A letter other than h is copied by all three passes. */
  lemma AspiratesCopy(c: char, t: seq<char>)
    requires c != 'h'
    ensures Aspirates([c] + t) == [c] + Aspirates(t)
  {
    SubCopies(HiRule, [c], t, None);
    SubCopies(HuRule, [c], Sub(HiRule, t, None), None);
    ReplaceCopies([c], Sub(HuRule, Sub(HiRule, t, None), None), "h", "");
  }

  /** hi before a vowel: the i becomes j and the vowel is read next. */
  lemma AspiratesHi(v: char, t: seq<char>)
    requires IsVowel(v)
    ensures Aspirates(['h', 'i', v] + t) == "j" + Aspirates([v] + t)
  {
    var s := ['h', 'i', v] + t;
    GlideRules(s, None);
    assert s[2..] == [v] + t;
    SubHit(HiRule, s, None);
    var x := Sub(HiRule, [v] + t, None);
    SubCopies(HuRule, "j", x, None);
    ReplaceCopies("j", Sub(HuRule, x, None), "h", "");
  }

  /** hu before a vowel: the u becomes w and the vowel is read next. */
  lemma AspiratesHu(v: char, t: seq<char>)
    requires IsVowel(v)
    ensures Aspirates(['h', 'u', v] + t) == "w" + Aspirates([v] + t)
  {
    HiPassKeepsHu(v, t);
    var x := Sub(HiRule, [v] + t, None);
    var y := ['h', 'u'] + x;
    GlideRules(y, None);
    assert y[2..] == x;
    SubHit(HuRule, y, None);
    ReplaceCopies("w", Sub(HuRule, x, None), "h", "");
  }

  /** The hi rule copies an h and u and keeps the vowel after them first. */
  lemma HiPassKeepsHu(v: char, t: seq<char>)
    requires IsVowel(v)
    ensures var x := Sub(HiRule, [v] + t, None);
      Sub(HiRule, ['h', 'u', v] + t, None) == ['h', 'u'] + x && |x| > 0 && x[0] == v
  {
    var vt := [v] + t;
    var x := Sub(HiRule, vt, None);
    var s := ['h', 'u'] + vt;
    assert s == ['h', 'u', v] + t;
    GlideRules(s, None);
    SubMiss(HiRule, s, None);
    assert s[1..] == ['u'] + vt;
    SubCopies(HiRule, ['u'], vt, None);
    assert Sub(HiRule, s, None) == ['h'] + (['u'] + x);
    ConsPair('h', 'u', x);
    assert v != HiRule.pat[0] by { assert HiRule.pat[0] == 'h' && IsVowel(v); }
    SubKeepsHead(HiRule, vt, None);
  }

  lemma ConsPair(a: char, b: char, x: seq<char>)
    ensures [a] + ([b] + x) == [a, b] + x
  {
  }

  /** An h that starts no glide is dropped. */
  lemma AspiratesSilent(t: seq<char>)
    requires !(|t| >= 2 && (t[0] == 'i' || t[0] == 'u') && IsVowel(t[1]))
    ensures Aspirates(['h'] + t) == Aspirates(t)
  {
    var s := ['h'] + t;
    assert s[1..] == t;
    GlideRules(s, None);
    SubMiss(HiRule, s, None);
    var x := Sub(HiRule, t, None);
    NoHuGlide(t);
    GlideRules(['h'] + x, None);
    SubMiss(HuRule, ['h'] + x, None);
    assert (['h'] + x)[1..] == x;
    var y := Sub(HuRule, x, None);
    assert (['h'] + y)[..1] == "h" && (['h'] + y)[1..] == y;
    ReplaceHit(['h'] + y, "h", "");
  }

  /** After the hi pass, a text that did not start with i or u before a vowel does not start
      with u before a vowel. */
  lemma NoHuGlide(t: seq<char>)
    requires !(|t| >= 2 && (t[0] == 'i' || t[0] == 'u') && IsVowel(t[1]))
    ensures var x := Sub(HiRule, t, None); !(|x| >= 2 && x[0] == 'u' && IsVowel(x[1]))
  {
    var x := Sub(HiRule, t, None);
    if t != [] {
      SubHead(HiRule, t, None);
      if t[0] == 'u' {
        SubCopies(HiRule, ['u'], t[1..], None);
        assert ['u'] + t[1..] == t;
        var x1 := Sub(HiRule, t[1..], None);
        assert x == ['u'] + x1;
        if t[1..] != [] {
          SubHead(HiRule, t[1..], None);
          assert x[1] == x1[0];
        }
      }
    }
  }

  /** The three h passes are the one-pass reading `SpellH`. */
  lemma {:induction false} AspiratesSpelled(w: seq<char>)
    ensures Aspirates(w) == SpellH(w)
    decreases |w|
  {
    if w == [] {
    } else if |w| >= 3 && w[0] == 'h' && w[1] == 'i' && IsVowel(w[2]) {
      assert w == ['h', 'i', w[2]] + w[3..] && w[2..] == [w[2]] + w[3..];
      AspiratesHi(w[2], w[3..]);
      AspiratesSpelled(w[2..]);
    } else if |w| >= 3 && w[0] == 'h' && w[1] == 'u' && IsVowel(w[2]) {
      assert w == ['h', 'u', w[2]] + w[3..] && w[2..] == [w[2]] + w[3..];
      AspiratesHu(w[2], w[3..]);
      AspiratesSpelled(w[2..]);
    } else if w[0] == 'h' {
      assert w == ['h'] + w[1..];
      AspiratesSilent(w[1..]);
      AspiratesSpelled(w[1..]);
    } else {
      assert w == [w[0]] + w[1..];
      AspiratesCopy(w[0], w[1..]);
      AspiratesSpelled(w[1..]);
    }
  }

  /** The h rules read from the front of the word: hi or hu before a vowel gives its glide
      and the vowel is read next; any other h is dropped; any other letter is copied. */
  lemma AspiratesHead(w: seq<char>)
    requires w != []
    ensures |w| >= 3 && w[0] == 'h' && w[1] == 'i' && IsVowel(w[2]) ==> Aspirates(w) == "j" + Aspirates(w[2..])
    ensures |w| >= 3 && w[0] == 'h' && w[1] == 'u' && IsVowel(w[2]) ==> Aspirates(w) == "w" + Aspirates(w[2..])
    ensures w[0] == 'h' && !(|w| >= 3 && (w[1] == 'i' || w[1] == 'u') && IsVowel(w[2])) ==> Aspirates(w) == Aspirates(w[1..])
    ensures w[0] != 'h' ==> Aspirates(w) == [w[0]] + Aspirates(w[1..])
  {
    AspiratesSpelled(w);
    AspiratesSpelled(w[1..]);
    if |w| >= 2 {
      AspiratesSpelled(w[2..]);
    }
  }

  /** A phone the consonant rules write: ʧ s k x g w b j ɲ. */
  predicate ConsonantPhone(c: char) {
    c == 'ʧ' || c == 's' || c == 'k' || c == 'x' || c == 'g' || c == 'w' || c == 'b' || c == 'j' || c == 'ɲ'
  }

  /** The consonant rules in the order the chain applies them: none of c, z, v, h, ñ
      survives, and the only characters added are phones. */
  function Consonants(w: seq<char>): (r: seq<char>)
    ensures 'c' !in r && 'z' !in r && 'v' !in r && 'h' !in r && 'ñ' !in r
    ensures forall c | c in r :: c in w || ConsonantPhone(c)
  {
    var w1 := Velars(Affricates(w));
    var w2 := Sibilants(w1);
    var w3 := Replace(w2, "v", "b");
    var w4 := Aspirates(w3);
    assert 'c' !in w3 && 'z' !in w3 && 'v' !in w3;
    assert 'c' !in w4 && 'z' !in w4 && 'v' !in w4 && 'h' !in w4;
    Replace(w4, "ñ", "ɲ")
  }

  /** `^y(?=[vowel])` → ʝ. */
  const YInitial := Rule("y", "ʝ", AtStart, AheadIn([AllVowels]))

  /** `(?<=[^vowel])y(?=[vowel])` → ʝ. */
  const YInner := Rule("y", "ʝ", BehindNotIn(AllVowels), AheadIn([AllVowels]))

  /** `(?<=[vowel])y$` → j. */
  const YFinal := Rule("y", "j", BehindIn(AllVowels), AtEnd)

  /** A y at `k` that starts a syllable: a vowel follows, and it is word-initial or
      follows a non-vowel. */
  predicate OnsetY(w: seq<char>, k: int) {
    0 <= k < |w| && w[k] == 'y' && k + 1 < |w| && IsVowel(w[k + 1]) && (k == 0 || !IsVowel(w[k - 1]))
  }

  /** Python's `$` after position `k`: `k` is the last position, or only a final newline follows. */
  predicate EndsAfter(w: seq<char>, k: int) {
    k == |w| - 1 || (0 <= k && k == |w| - 2 && w[|w| - 1] == '\n')
  }

  /** A word-final y after a vowel. */
  predicate FinalY(w: seq<char>, k: int) {
    0 < k < |w| && w[k] == 'y' && IsVowel(w[k - 1]) && EndsAfter(w, k)
  }

  /** The three y rules, applied in turn: they keep the length and write only ʝ and j. */
  function YRules(w: seq<char>): (r: seq<char>)
    ensures |r| == |w|
    ensures forall c | c in r :: c in w || c == 'ʝ' || c == 'j'
  {
    var w1 := Sub(YInitial, w, None);
    var w2 := Sub(YInner, w1, None);
    OneForOneLength(YInitial, w, None);
    OneForOneLength(YInner, w1, None);
    OneForOneLength(YFinal, w2, None);
    Sub(YFinal, w2, None)
  }

  /** A vowel look-ahead reads the next character. */
  lemma VowelAhead(s: seq<char>, k: nat)
    requires k < |s|
    ensures AheadOk(AheadIn([AllVowels]), s[k + 1..]) <==> k + 1 < |s| && IsVowel(s[k + 1])
  {
    AheadOne(s[k + 1..], AllVowels);
    if k + 1 < |s| {
      assert s[k + 1..][0] == s[k + 1];
      VowelClasses(s[k + 1]);
    }
  }

  /** A vowel look-behind reads the previous character. */
  lemma VowelBehind(s: seq<char>, k: nat)
    requires k < |s|
    ensures BehindOk(BehindIn(AllVowels), PrevAt(s, k, None)) <==> k > 0 && IsVowel(s[k - 1])
    ensures BehindOk(BehindNotIn(AllVowels), PrevAt(s, k, None)) <==> k > 0 && !IsVowel(s[k - 1])
  {
    if k > 0 {
      VowelClasses(s[k - 1]);
    }
  }

  lemma YInitialAt(w: seq<char>, k: nat)
    requires k < |w|
    ensures |Sub(YInitial, w, None)| == |w|
    ensures Sub(YInitial, w, None)[k] == if w[k] == 'y' && k == 0 && k + 1 < |w| && IsVowel(w[k + 1]) then 'ʝ' else w[k]
  {
    SubCharAt(YInitial, w, k);
    VowelAhead(w, k);
  }

  lemma YInnerAt(w: seq<char>, k: nat)
    requires k < |w|
    ensures |Sub(YInner, w, None)| == |w|
    ensures Sub(YInner, w, None)[k] ==
      if w[k] == 'y' && k > 0 && !IsVowel(w[k - 1]) && k + 1 < |w| && IsVowel(w[k + 1]) then 'ʝ' else w[k]
  {
    SubCharAt(YInner, w, k);
    VowelAhead(w, k);
    VowelBehind(w, k);
  }

  lemma YFinalAt(w: seq<char>, k: nat)
    requires k < |w|
    ensures |Sub(YFinal, w, None)| == |w|
    ensures Sub(YFinal, w, None)[k] == if w[k] == 'y' && k > 0 && IsVowel(w[k - 1]) && EndsAfter(w, k) then 'j' else w[k]
  {
    SubCharAt(YFinal, w, k);
    VowelBehind(w, k);
    if k + 1 < |w| {
      assert w[k + 1..] == "\n" <==> k == |w| - 2 && w[|w| - 1] == '\n' by {
        if k == |w| - 2 { assert w[k + 1..] == [w[|w| - 1]]; }
      }
    }
  }

  /** The two ʝ rules together rewrite exactly the syllable-initial y. */
  lemma YOnsetAt(w: seq<char>, k: nat)
    requires k < |w|
    ensures var w2 := Sub(YInner, Sub(YInitial, w, None), None);
      |w2| == |w| && w2[k] == if OnsetY(w, k) then 'ʝ' else w[k]
  {
    var w1 := Sub(YInitial, w, None);
    YInitialAt(w, k);
    YInnerAt(w1, k);
    assert w1[k] == if w[k] == 'y' && k == 0 && k + 1 < |w| && IsVowel(w[k + 1]) then 'ʝ' else w[k];
    if k > 0 {
      YInitialAt(w, k - 1);
      assert IsVowel(w1[k - 1]) == IsVowel(w[k - 1]);
    }
    if k + 1 < |w| {
      YInitialAt(w, k + 1);
      assert IsVowel(w1[k + 1]) == IsVowel(w[k + 1]);
    }
  }

  /** The y rules rewrite exactly the syllable-initial y (to ʝ) and a final y after a vowel
      (to the glide j); every other character, intervocalic y included, is kept. */
  lemma YRulesAt(w: seq<char>, k: nat)
    requires k < |w|
    ensures YRules(w)[k] == if OnsetY(w, k) then 'ʝ' else if FinalY(w, k) then 'j' else w[k]
  {
    var w2 := Sub(YInner, Sub(YInitial, w, None), None);
    YOnsetAt(w, k);
    YFinalAt(w2, k);
    if k > 0 {
      YOnsetKeepsClass(w, k - 1);
      assert IsVowel(w2[k - 1]) == IsVowel(w[k - 1]);
    }
    if k + 1 < |w| {
      YOnsetKeepsClass(w, |w| - 1);
    }
    assert EndsAfter(w2, k) == EndsAfter(w, k);
  }

  /** The onset passes keep whether a position holds a vowel, and whether it holds a newline. */
  lemma YOnsetKeepsClass(w: seq<char>, j: nat)
    requires j < |w|
    ensures var w2 := Sub(YInner, Sub(YInitial, w, None), None);
      |w2| == |w| && IsVowel(w2[j]) == IsVowel(w[j]) && (w2[j] == '\n' <==> w[j] == '\n')
  {
    YOnsetAt(w, j);
    VowelClasses('y');
    VowelClasses('ʝ');
  }

  /** Every position of the y rules' output. */
  lemma YRulesPlaces(w: seq<char>)
    ensures forall k | 0 <= k < |w| :: YRules(w)[k] == if OnsetY(w, k) then 'ʝ' else if FinalY(w, k) then 'j' else w[k]
  {
    forall k | 0 <= k < |w|
      ensures YRules(w)[k] == if OnsetY(w, k) then 'ʝ' else if FinalY(w, k) then 'j' else w[k]
    {
      YRulesAt(w, k);
    }
  }

  /** Yeísmo: ll→ʝ, then the y rules. No ll is left and the only letters written are ʝ
      and j. */
  function Yeismo(w: seq<char>): (r: seq<char>)
    ensures forall c | c in r :: c in w || c == 'ʝ' || c == 'j'
    ensures NoPair(r, 'l', 'l')
  {
    var w1 := Replace(w, "ll", "ʝ");
    ReplaceLeavesNoPair(w, "ll", "ʝ");
    YRulesKeepL(w1);
    YRules(w1)
  }

  /** The y rules neither write nor remove an l. */
  lemma YRulesKeepL(w: seq<char>)
    requires NoPair(w, 'l', 'l')
    ensures NoPair(YRules(w), 'l', 'l')
  {
    var r := YRules(w);
    forall k | 0 <= k < |r| - 1
      ensures !(r[k] == 'l' && r[k + 1] == 'l')
    {
      YRulesAt(w, k);
      YRulesAt(w, k + 1);
    }
  }

  /** A word-final n becomes ŋ only when nasal assimilation is on. */
  function FinalNasal(cfg: Config, w: seq<char>): (r: seq<char>)
    ensures cfg.nasalAssimilation && |w| > 0 && w[|w| - 1] == 'n' ==> r == w[..|w| - 1] + "ŋ"
    ensures !cfg.nasalAssimilation || w == [] || w[|w| - 1] != 'n' ==> r == w
    ensures |r| == |w|
    ensures forall k | 0 <= k < |w| :: r[k] == w[k] || (cfg.nasalAssimilation && k == |w| - 1 && w[k] == 'n' && r[k] == 'ŋ')
  {
    if cfg.nasalAssimilation && |w| > 0 && w[|w| - 1] == 'n' then w[..|w| - 1] + "ŋ" else w
  }

  /** `re.sub(r"([lns])r", r"\1RRR", w)`: an r right after l, n or s is marked as a trill. */
  function StrengthenClusters(s: seq<char>): seq<char> {
    if s == [] then []
    else if |s| >= 2 && s[0] in "lns" && s[1] == 'r' then [s[0]] + Placeholder + StrengthenClusters(s[2..])
    else [s[0]] + StrengthenClusters(s[1..])
  }

  /** The rhotic rules as the chain writes them: rr and an initial r are marked with the
      placeholder, then r after l/n/s, then every other r becomes the tap ɾ and the
      placeholders become the trill r. */
  function Rhotics(w: seq<char>): seq<char> {
    var a := Replace(w, "rr", Placeholder);
    var b := if |a| > 0 && a[0] == 'r' then Placeholder + a[1..] else a;
    var c := StrengthenClusters(b);
    var d := Replace(c, "r", "ɾ");
    Replace(d, Placeholder, "r")
  }

  /** The rhotic rule as one left-to-right classification: `rr`, a word-initial r and an r
      right after l, n or s are the trill r; every other r is the tap ɾ. `prev` is the
      character before `s` (`None` at the start of the word). */
  function ClassifyRhotics(s: seq<char>, prev: Option<char>): (r: seq<char>)
    ensures forall c | c in r :: c in s || c == 'ɾ'
  {
    if s == [] then []
    else if |s| >= 2 && s[0] == 'r' && s[1] == 'r' then "r" + ClassifyRhotics(s[2..], Some('r'))
    else if s[0] == 'r' then
      (if prev.None? || prev.value in "lns" then "r" else "ɾ") + ClassifyRhotics(s[1..], Some('r'))
    else [s[0]] + ClassifyRhotics(s[1..], Some(s[0]))
  }

  /** `s` starts with an r that is not part of rr. */
  predicate LoneR(s: seq<char>) { |s| > 0 && s[0] == 'r' && !(|s| >= 2 && s[1] == 'r') }

  lemma StrengthenCopy(c: char, x: seq<char>)
    requires !(c in "lns" && |x| > 0 && x[0] == 'r')
    ensures StrengthenClusters([c] + x) == [c] + StrengthenClusters(x)
  {
    assert ([c] + x)[1..] == x;
  }

  lemma StrengthenCluster(c: char, x: seq<char>)
    requires c in "lns"
    ensures StrengthenClusters([c, 'r'] + x) == [c] + Placeholder + StrengthenClusters(x)
  {
    assert ([c, 'r'] + x)[2..] == x;
  }

  lemma StrengthenSkipsPlaceholder(x: seq<char>)
    ensures StrengthenClusters(Placeholder + x) == Placeholder + StrengthenClusters(x)
  {
    assert Placeholder + x == ['R'] + (['R'] + (['R'] + x));
    StrengthenCopy('R', ['R'] + (['R'] + x));
    StrengthenCopy('R', ['R'] + x);
    StrengthenCopy('R', x);
  }

  /** The chain without its word-initial step. */
  function RhoticsInner(w: seq<char>): seq<char> {
    Replace(Replace(StrengthenClusters(Replace(w, "rr", Placeholder)), "r", "ɾ"), Placeholder, "r")
  }

  /** The first character of `Replace(t, "rr", Placeholder)` is not r unless `t` starts with a lone r. */
  lemma MarkedStart(t: seq<char>)
    requires !LoneR(t)
    ensures var a := Replace(t, "rr", Placeholder); !(|a| > 0 && a[0] == 'r')
  {
    if |t| >= 2 && t[..2] == "rr" {
      ReplaceHit(t, "rr", Placeholder);
    } else if |t| > 0 {
      ReplaceSkip(t, "rr", Placeholder);
    }
  }

  /** Placeholder markers followed by the tap and trill passes. */
  lemma TailPasses(u: seq<char>, y: seq<char>)
    requires 'r' !in u && 'R' !in u
    ensures Replace(Replace(u + y, "r", "ɾ"), Placeholder, "r")
         == u + Replace(Replace(y, "r", "ɾ"), Placeholder, "r")
  {
    ReplaceCopies(u, y, "r", "ɾ");
    ReplaceCopies(u, Replace(y, "r", "ɾ"), Placeholder, "r");
  }

  lemma TrillPasses(y: seq<char>)
    ensures Replace(Replace(Placeholder + y, "r", "ɾ"), Placeholder, "r")
         == "r" + Replace(Replace(y, "r", "ɾ"), Placeholder, "r")
  {
    ReplaceCopies(Placeholder, y, "r", "ɾ");
    var d := Replace(y, "r", "ɾ");
    ReplaceHit(Placeholder + d, Placeholder, "r");
    assert (Placeholder + d)[3..] == d;
  }

  /** rr: both letters become one trill. */
  lemma ClassifyDouble(w: seq<char>, prev: Option<char>)
    requires |w| >= 2 && w[0] == 'r' && w[1] == 'r'
    requires RhoticsInner(w[2..]) == ClassifyRhotics(w[2..], Some('r'))
    ensures RhoticsInner(w) == ClassifyRhotics(w, prev)
  {
    var t := w[2..];
    assert w[..2] == "rr";
    ReplaceHit(w, "rr", Placeholder);
    var at := Replace(t, "rr", Placeholder);
    StrengthenSkipsPlaceholder(at);
    TrillPasses(StrengthenClusters(at));
  }

  /** The passes turn a lone r into a tap. */
  lemma InnerTap(w: seq<char>)
    requires LoneR(w)
    ensures RhoticsInner(w) == "ɾ" + RhoticsInner(w[1..])
  {
    var t := w[1..];
    ReplaceSkip(w, "rr", Placeholder);
    var at := Replace(t, "rr", Placeholder);
    StrengthenCopy('r', at);
    var x := StrengthenClusters(at);
    ReplaceHit("r" + x, "r", "ɾ");
    assert ("r" + x)[1..] == x;
    ReplaceCopies("ɾ", Replace(x, "r", "ɾ"), Placeholder, "r");
  }

  /** A lone r that the inner chain sees (not word-initial, not after l/n/s) is a tap. */
  lemma ClassifyTap(w: seq<char>, prev: Option<char>)
    requires LoneR(w) && prev.Some? && prev.value !in "lns"
    requires RhoticsInner(w[1..]) == ClassifyRhotics(w[1..], Some('r'))
    ensures RhoticsInner(w) == ClassifyRhotics(w, prev)
  {
    InnerTap(w);
  }

  /** The passes keep l, n or s and turn the lone r after it into a trill. */
  lemma InnerCluster(w: seq<char>)
    requires |w| >= 2 && w[0] in "lns" && LoneR(w[1..])
    ensures RhoticsInner(w) == [w[0], 'r'] + RhoticsInner(w[2..])
  {
    MarkCluster(w);
    ClusterPasses(w[0], Replace(w[2..], "rr", Placeholder));
  }

  /** Marking rr leaves the l, n or s and the lone r after it in place. */
  lemma MarkCluster(w: seq<char>)
    requires |w| >= 2 && w[0] in "lns" && LoneR(w[1..])
    ensures Replace(w, "rr", Placeholder) == [w[0], 'r'] + Replace(w[2..], "rr", Placeholder)
  {
    ReplaceSkip(w, "rr", Placeholder);
    ReplaceSkip(w[1..], "rr", Placeholder);
    assert w[1..][1..] == w[2..];
  }

  /** After marking, the strengthening, tap and trill passes turn the r after l, n or s
      into a trill. */
  lemma ClusterPasses(c: char, at: seq<char>)
    requires c in "lns"
    ensures Replace(Replace(StrengthenClusters([c, 'r'] + at), "r", "ɾ"), Placeholder, "r")
         == [c, 'r'] + Replace(Replace(StrengthenClusters(at), "r", "ɾ"), Placeholder, "r")
  {
    StrengthenCluster(c, at);
    var x := StrengthenClusters(at);
    assert [c] + Placeholder + x == [c] + (Placeholder + x);
    TailPasses([c], Placeholder + x);
    TrillPasses(x);
  }

  /** l, n or s followed by a lone r: the r is a trill. */
  lemma ClassifyCluster(w: seq<char>, prev: Option<char>)
    requires |w| >= 2 && w[0] in "lns" && LoneR(w[1..])
    requires RhoticsInner(w[2..]) == ClassifyRhotics(w[2..], Some('r'))
    ensures RhoticsInner(w) == ClassifyRhotics(w, prev)
  {
    InnerCluster(w);
    ClassifyClusterShape(w, prev);
  }

  /** How `ClassifyRhotics` reads l, n or s and a lone r. */
  lemma ClassifyClusterShape(w: seq<char>, prev: Option<char>)
    requires |w| >= 2 && w[0] in "lns" && LoneR(w[1..])
    ensures ClassifyRhotics(w, prev) == [w[0], 'r'] + ClassifyRhotics(w[2..], Some('r'))
  {
    assert w[1..][1..] == w[2..];
    calc {
      ClassifyRhotics(w, prev);
      [w[0]] + ClassifyRhotics(w[1..], Some(w[0]));
      [w[0]] + ("r" + ClassifyRhotics(w[2..], Some('r')));
      [w[0], 'r'] + ClassifyRhotics(w[2..], Some('r'));
    }
  }

  /** Any other character is copied. */
  lemma ClassifyOther(w: seq<char>, prev: Option<char>)
    requires w != [] && w[0] != 'r' && w[0] != 'R'
    requires !(w[0] in "lns" && LoneR(w[1..]))
    requires RhoticsInner(w[1..]) == ClassifyRhotics(w[1..], Some(w[0]))
    ensures RhoticsInner(w) == ClassifyRhotics(w, prev)
  {
    var c, t := w[0], w[1..];
    ReplaceSkip(w, "rr", Placeholder);
    var at := Replace(t, "rr", Placeholder);
    if c in "lns" {
      MarkedStart(t);
    }
    StrengthenCopy(c, at);
    TailPasses([c], StrengthenClusters(at));
  }

  lemma {:induction false} RhoticsInnerClassifies(w: seq<char>, prev: Option<char>)
    requires 'R' !in w
    requires LoneR(w) ==> prev.Some? && prev.value !in "lns"
    ensures RhoticsInner(w) == ClassifyRhotics(w, prev)
    decreases |w|
  {
    if w == [] {
    } else if |w| >= 2 && w[0] == 'r' && w[1] == 'r' {
      RhoticsInnerClassifies(w[2..], Some('r'));
      ClassifyDouble(w, prev);
    } else if w[0] == 'r' {
      RhoticsInnerClassifies(w[1..], Some('r'));
      ClassifyTap(w, prev);
    } else if w[0] in "lns" && LoneR(w[1..]) {
      RhoticsInnerClassifies(w[2..], Some('r'));
      ClassifyCluster(w, prev);
    } else {
      RhoticsInnerClassifies(w[1..], Some(w[0]));
      ClassifyOther(w, prev);
    }
  }

  /** The placeholder chain classifies every r exactly as the single-pass rule does, for any
      word without a capital R (the placeholder letter), which lowering guarantees. */
  lemma RhoticsClassified(w: seq<char>)
    requires 'R' !in w
    ensures Rhotics(w) == ClassifyRhotics(w, None)
  {
    if LoneR(w) {
      var t := w[1..];
      ReplaceSkip(w, "rr", Placeholder);
      var at := Replace(t, "rr", Placeholder);
      assert Replace(w, "rr", Placeholder)[1..] == at;
      StrengthenSkipsPlaceholder(at);
      TrillPasses(StrengthenClusters(at));
      RhoticsInnerClassifies(t, Some('r'));
    } else {
      MarkedStart(w);
      RhoticsInnerClassifies(w, None);
    }
  }

  /** A character `map_graphemes` may leave in its output: none of c, z, v, h, ñ and no capital. */
  predicate Phonetic(c: char) {
    c != 'c' && c != 'z' && c != 'v' && c != 'h' && c != 'ñ' && !IsUpper(c)
  }

  /** None of the phones the consonant rules introduce is a capital letter. */
  lemma PhoneNotUpper(c: char)
    requires ConsonantPhone(c)
    ensures !IsUpper(c)
  {
  }

  lemma ConsonantsPhonetic(w: seq<char>)
    requires forall c | c in w :: !IsUpper(c)
    ensures forall c | c in Consonants(w) :: Phonetic(c)
  {
    var a := Consonants(w);
    forall c | c in a ensures Phonetic(c) {
      if c !in w {
        PhoneNotUpper(c);
      }
    }
  }

  lemma YeismoPhonetic(w: seq<char>)
    requires forall c | c in w :: Phonetic(c)
    ensures forall c | c in Yeismo(w) :: Phonetic(c)
  {
    forall c | c in Yeismo(w) ensures Phonetic(c) {
      assert c in w || c == 'ʝ' || c == 'j';
    }
  }

  lemma FinalNasalPhonetic(cfg: Config, w: seq<char>)
    requires forall c | c in w :: Phonetic(c)
    ensures forall c | c in FinalNasal(cfg, w) :: Phonetic(c)
  {
    var d := FinalNasal(cfg, w);
    forall c | c in d ensures Phonetic(c) {
      var k :| 0 <= k < |d| && d[k] == c;
      assert d[k] == w[k] || d[k] == 'ŋ';
    }
  }

  lemma RhoticsPhonetic(w: seq<char>)
    requires forall c | c in w :: Phonetic(c)
    ensures forall c | c in Rhotics(w) :: Phonetic(c)
  {
    assert 'R' !in w by { assert IsUpper('R'); }
    RhoticsClassified(w);
    forall c | c in Rhotics(w) ensures Phonetic(c) {
      assert c in w || c == 'ɾ';
    }
  }

  /** The rules after the "y" test leave only phonetic characters in a lower-case word. */
  lemma ChainPhonetic(cfg: Config, w: seq<char>)
    requires forall c | c in w :: !IsUpper(c)
    ensures forall c | c in Rhotics(FinalNasal(cfg, Yeismo(Consonants(w)))) :: Phonetic(c)
  {
    ConsonantsPhonetic(w);
    YeismoPhonetic(Consonants(w));
    FinalNasalPhonetic(cfg, Yeismo(Consonants(w)));
    RhoticsPhonetic(FinalNasal(cfg, Yeismo(Consonants(w))));
  }

  /** The word the rules see: lowered, then nasal-assimilated when that is switched on.
      It holds no capital letter. */
  function Prepared(cfg: Config, word: seq<char>): (w: seq<char>)
    ensures forall c | c in w :: !IsUpper(c)
    ensures NormalizeWord(word) == "y" ==> w == "y"
  {
    var w0 := NormalizeWord(word);
    NasalAssimilationPlaces(w0);
    if cfg.nasalAssimilation then NasalAssimilation(w0) else w0
  }

  /** `map_graphemes`. The lone conjunction "y" (in either case) is the vowel i and skips
      every other rule; any other word comes out with no c, z, v, h or ñ left, and with no
      capital letter, so the trill placeholder never leaks. */
  function MapGraphemes(cfg: Config, word: seq<char>): (r: seq<char>)
    ensures NormalizeWord(word) == "y" ==> r == "i"
    ensures forall c | c in r :: Phonetic(c)
  {
    var w1 := Prepared(cfg, word);
    if w1 == "y" then "i"
    else
      ChainPhonetic(cfg, w1);
      Rhotics(FinalNasal(cfg, Yeismo(Consonants(w1))))
  }

  /** In every word but the conjunction, the r's of `map_graphemes`' output are classified
      in one pass: rr, a word-initial r and an r after l, n or s are trills, the rest taps. */
  lemma MapGraphemesRhotics(cfg: Config, word: seq<char>)
    requires Prepared(cfg, word) != "y"
    ensures var w := Prepared(cfg, word);
      MapGraphemes(cfg, word) == ClassifyRhotics(FinalNasal(cfg, Yeismo(Consonants(w))), None)
  {
    var w := Prepared(cfg, word);
    var a := Consonants(w);
    var b := Yeismo(a);
    var d := FinalNasal(cfg, b);
    ConsonantsPhonetic(w);
    YeismoPhonetic(a);
    FinalNasalPhonetic(cfg, b);
    assert !Phonetic('R');
    RhoticsClassified(d);
  }

  /** A prepared word starts with c, h when the lowered word does: assimilation changes
      only n. */
  lemma PreparedKeepsCh(cfg: Config, word: seq<char>)
    requires |word| >= 2 && NormalizeWord(word)[0] == 'c' && NormalizeWord(word)[1] == 'h'
    ensures var w := Prepared(cfg, word); |w| >= 2 && w[0] == 'c' && w[1] == 'h'
  {
    var w0 := NormalizeWord(word);
    AssimilationAt(w0, 0);
    AssimilationAt(w0, 1);
  }

  /** The g, j, gu and gü rules keep a leading ʧ. */
  lemma VelarsKeepHead(w: seq<char>)
    requires w != [] && w[0] == 'ʧ'
    ensures Velars(w) != [] && Velars(w)[0] == 'ʧ'
  {
    var g := Sub(SoftG, w, None);
    SubKeepsHead(SoftG, w, None);
    SubKeepsHead(Plain("j", "x"), g, None);
    var v := VelarFricative(w);
    SubKeepsHead(SilentURule('g', 'g'), v, None);
    SubKeepsHead(Plain("gü", "gw"), SilentU(v, 'g', 'g'), None);
  }

  /** The c, z and qu rules keep a leading ʧ. */
  lemma SibilantsKeepHead(w: seq<char>)
    requires w != [] && w[0] == 'ʧ'
    ensures Sibilants(w) != [] && Sibilants(w)[0] == 'ʧ'
  {
    var s1 := Sub(SoftC, w, None);
    SubKeepsHead(SoftC, w, None);
    var s2 := Replace(s1, "z", "s");
    SubKeepsHead(Plain("z", "s"), s1, None);
    SubKeepsHead(Plain("c", "k"), s2, None);
    SubKeepsHead(SilentURule('q', 'k'), SibilantC(w), None);
  }

  /** The v, h and ñ rules keep a leading ʧ. */
  lemma LateConsonantsKeepHead(w: seq<char>)
    requires w != [] && w[0] == 'ʧ'
    ensures var r := Replace(Aspirates(Replace(w, "v", "b")), "ñ", "ɲ"); r != [] && r[0] == 'ʧ'
  {
    var b := Replace(w, "v", "b");
    SubKeepsHead(Plain("v", "b"), w, None);
    assert b == [b[0]] + b[1..];
    AspiratesCopy('ʧ', b[1..]);
    SubKeepsHead(Plain("ñ", "ɲ"), Aspirates(b), None);
  }

  /** Yeísmo keeps a leading ʧ. */
  lemma YeismoKeepsHead(w: seq<char>)
    requires w != [] && w[0] == 'ʧ'
    ensures Yeismo(w) != [] && Yeismo(w)[0] == 'ʧ'
  {
    var w1 := Replace(w, "ll", "ʝ");
    SubKeepsHead(Plain("ll", "ʝ"), w, None);
    YRulesAt(w1, 0);
  }

  /** The consonant rules turn a leading ch into ʧ. */
  lemma ConsonantsCh(w: seq<char>)
    requires |w| >= 2 && w[0] == 'c' && w[1] == 'h'
    ensures Consonants(w) != [] && Consonants(w)[0] == 'ʧ'
  {
    var a := Affricates(w);
    VelarsKeepHead(a);
    SibilantsKeepHead(Velars(a));
    LateConsonantsKeepHead(Sibilants(Velars(a)));
  }

  /** The single-pass rhotic rule copies a first character other than r. */
  lemma ClassifyKeepsHead(d: seq<char>, prev: Option<char>)
    requires d != [] && d[0] != 'r'
    ensures ClassifyRhotics(d, prev) != [] && ClassifyRhotics(d, prev)[0] == d[0]
  {
  }

  /** The rules after the "y" test turn a leading ch into ʧ. */
  lemma ChainCh(cfg: Config, w: seq<char>)
    requires |w| >= 2 && w[0] == 'c' && w[1] == 'h'
    requires forall c | c in w :: !IsUpper(c)
    ensures var r := Rhotics(FinalNasal(cfg, Yeismo(Consonants(w)))); r != [] && r[0] == 'ʧ'
  {
    var c := Consonants(w);
    ConsonantsCh(w);
    YeismoKeepsHead(c);
    var d := FinalNasal(cfg, Yeismo(c));
    assert d[0] == 'ʧ';
    ChainClassified(cfg, w);
    ClassifyKeepsHead(d, None);
  }

  /** Every word but the conjunction goes through the whole chain. */
  lemma MapGraphemesChain(cfg: Config, word: seq<char>)
    requires Prepared(cfg, word) != "y"
    ensures MapGraphemes(cfg, word) == Rhotics(FinalNasal(cfg, Yeismo(Consonants(Prepared(cfg, word)))))
  {
  }

  /** On a lower-case word, the rhotic passes at the end of the chain are the single-pass
      classification. */
  lemma ChainClassified(cfg: Config, w: seq<char>)
    requires forall c | c in w :: !IsUpper(c)
    ensures var d := FinalNasal(cfg, Yeismo(Consonants(w))); Rhotics(d) == ClassifyRhotics(d, None)
  {
    var c := Consonants(w);
    ConsonantsPhonetic(w);
    YeismoPhonetic(c);
    FinalNasalPhonetic(cfg, Yeismo(c));
    assert !Phonetic('R');
    RhoticsClassified(FinalNasal(cfg, Yeismo(c)));
  }

  /** A word spelled with ch first is transcribed starting with the affricate ʧ. */
  lemma MapGraphemesCh(cfg: Config, word: seq<char>)
    requires |word| >= 2 && NormalizeWord(word)[0] == 'c' && NormalizeWord(word)[1] == 'h'
    ensures var r := MapGraphemes(cfg, word); r != [] && r[0] == 'ʧ'
  {
    PreparedKeepsCh(cfg, word);
    PreparedChMapped(cfg, word);
  }

  /** Once the prepared word starts with ch, the rest of the chain turns it into ʧ. */
  lemma PreparedChMapped(cfg: Config, word: seq<char>)
    requires var w := Prepared(cfg, word); |w| >= 2 && w[0] == 'c' && w[1] == 'h'
    ensures var r := MapGraphemes(cfg, word); r != [] && r[0] == 'ʧ'
  {
    var w := Prepared(cfg, word);
    MapGraphemesChain(cfg, word);
    ChainCh(cfg, w);
  }

  /** Lowering never produces the stress marker. */
  lemma LowerNotMarker(word: seq<char>)
    requires 'ˈ' !in word
    ensures 'ˈ' !in NormalizeWord(word)
  {
    var w := NormalizeWord(word);
    forall k | 0 <= k < |w| ensures w[k] != 'ˈ' {
      assert word[k] in word;
    }
  }

  /** A character the rules after the "y" test never write. */
  predicate NeverWritten(m: char) {
    !ConsonantPhone(m) && m != 'ʝ' && m != 'j' && m != 'ŋ' && m != 'ɾ' && m != 'r' && m != 'R'
  }

  /** The rules after the "y" test keep out every character they never write. */
  lemma ChainKeepsOut(cfg: Config, w: seq<char>, m: char)
    requires NeverWritten(m) && m !in w
    requires forall c | c in w :: !IsUpper(c)
    ensures m !in Rhotics(FinalNasal(cfg, Yeismo(Consonants(w))))
  {
    var d := FinalNasal(cfg, Yeismo(Consonants(w)));
    ConsonantsKeepOut(cfg, w, m);
    ConsonantsPhonetic(w);
    YeismoPhonetic(Consonants(w));
    FinalNasalPhonetic(cfg, Yeismo(Consonants(w)));
    assert !Phonetic('R');
    RhoticsClassified(d);
  }

  /** The rules before the rhotics keep out every character they never write. */
  lemma ConsonantsKeepOut(cfg: Config, w: seq<char>, m: char)
    requires NeverWritten(m) && m !in w
    requires forall c | c in w :: !IsUpper(c)
    ensures m !in FinalNasal(cfg, Yeismo(Consonants(w)))
  {
  }

  /** The stress marker is not among them. */
  lemma MarkerNeverWritten()
    ensures NeverWritten('ˈ')
  {
  }

  /** A word without the stress marker ˈ maps to phones without it: the rules only ever
      write phone letters. */
  lemma MapGraphemesNoMarker(cfg: Config, word: seq<char>)
    requires 'ˈ' !in word
    ensures 'ˈ' !in MapGraphemes(cfg, word)
  {
    LowerNotMarker(word);
    var w1 := Prepared(cfg, word);
    assert 'ˈ' !in w1;
    if w1 != "y" {
      MarkerNeverWritten();
      ChainKeepsOut(cfg, w1, 'ˈ');
    }
  }
}
