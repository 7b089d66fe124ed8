/** The three stages after the grapheme chain: default stress by re-accenting one
    vowel (`add_stress_if_needed`), the optional diphthong glides (`apply_glides`) and
    the replacement of the temporary accent by the marker ˈ
    (`insert_stress_marker_and_clean`). */
module Stress {
  import opened Strings
  import opened Rewrite
  import opened Normalize
  import opened Graphemes

  /** `any(v in phonemes for v in VOWELS_ACCENTED)`. */
  predicate HasAccent(p: seq<char>) {
    exists k | 0 <= k < |p| :: IsAccented(p[k])
  }

  /** Strings with accents at the same positions agree on whether they have one. */
  lemma HasAccentPointwise(p: seq<char>, r: seq<char>)
    requires |p| == |r|
    requires forall k | 0 <= k < |p| :: IsAccented(r[k]) <==> IsAccented(p[k])
    ensures HasAccent(r) <==> HasAccent(p)
  {
    if HasAccent(p) {
      var k :| 0 <= k < |p| && IsAccented(p[k]);
      assert IsAccented(r[k]);
    }
    if HasAccent(r) {
      var k :| 0 <= k < |r| && IsAccented(r[k]);
      assert IsAccented(p[k]);
    }
  }

  /** ACCENT_VOWEL_MAP: a plain vowel's acute form. */
  function Acute(c: char): (a: char)
    requires IsPlainVowel(c)
    ensures IsAccented(a) && Unaccent(a) == c
  {
    match c
    case 'a' => 'á'
    case 'e' => 'é'
    case 'i' => 'í'
    case 'o' => 'ó'
    case 'u' => 'ú'
  }

  // ---------------------------------------------------------------- vowel groups

  /** One match of `[aeiouáéíóú]+`: the half-open range [start, end). */
  datatype Span = Span(start: nat, end: nat)

  /** The first position at or after `k` that does not hold a vowel. */
  function RunEnd(p: seq<char>, k: nat): (e: nat)
    requires k <= |p|
    ensures k <= e <= |p|
    ensures forall i | k <= i < e :: IsVowel(p[i])
    ensures e < |p| ==> !IsVowel(p[e])
    decreases |p| - k
  {
    if k == |p| || !IsVowel(p[k]) then k else RunEnd(p, k + 1)
  }

  /** The vowel groups `re.finditer` reports in `p[i..]`, in order. */
  function GroupsFrom(p: seq<char>, i: nat): (gs: seq<Span>)
    requires i <= |p|
    ensures forall m | 0 <= m < |gs| ::
      i <= gs[m].start < gs[m].end <= |p| && IsVowel(p[gs[m].start]) && gs[m].end == RunEnd(p, gs[m].start)
    ensures forall m | 0 <= m < |gs| - 1 :: gs[m].end < gs[m + 1].start
    decreases |p| - i
  {
    if i == |p| then []
    else if IsVowel(p[i]) then [Span(i, RunEnd(p, i))] + GroupsFrom(p, RunEnd(p, i))
    else GroupsFrom(p, i + 1)
  }

  function Groups(p: seq<char>): seq<Span> { GroupsFrom(p, 0) }

  /** A maximal run of vowels starts at `k`. */
  predicate GroupStart(p: seq<char>, k: nat) {
    k < |p| && IsVowel(p[k]) && (k == 0 || !IsVowel(p[k - 1]))
  }

  /** One of the spans starts at `k`. */
  predicate SpanAt(gs: seq<Span>, k: nat) {
    exists m | 0 <= m < |gs| :: gs[m].start == k
  }

  /** `i` is not strictly inside a run of vowels. */
  predicate Boundary(p: seq<char>, i: nat) {
    !(0 < i < |p| && IsVowel(p[i - 1]) && IsVowel(p[i]))
  }

  /** Scanning from a boundary finds a group at exactly the positions where a maximal
      run of vowels starts. */
  lemma {:induction false} GroupsFromExact(p: seq<char>, i: nat)
    requires i <= |p| && Boundary(p, i)
    ensures var gs := GroupsFrom(p, i);
      forall k | i <= k < |p| :: GroupStart(p, k) <==> SpanAt(gs, k)
    decreases |p| - i
  {
    var gs := GroupsFrom(p, i);
    if i < |p| {
      var next := if IsVowel(p[i]) then RunEnd(p, i) else i + 1;
      var rest := GroupsFrom(p, next);
      GroupsFromExact(p, next);
      if IsVowel(p[i]) {
        assert gs == [Span(i, next)] + rest;
        assert GroupStart(p, i) && gs[0].start == i;
        assert SpanAt(gs, i);
        forall k | i < k < next ensures !GroupStart(p, k) && !SpanAt(gs, k) {
          assert IsVowel(p[k - 1]);
          forall m | 0 <= m < |gs| ensures gs[m].start != k {
            if m > 0 {
              assert gs[m] == rest[m - 1];
            }
          }
        }
        forall k | next <= k < |p|
          ensures SpanAt(gs, k) <==> SpanAt(rest, k)
        {
          if m :| 0 <= m < |gs| && gs[m].start == k {
            assert m > 0 && gs[m] == rest[m - 1];
          }
          if m :| 0 <= m < |rest| && rest[m].start == k {
            assert gs[m + 1] == rest[m];
          }
        }
      } else {
        assert gs == rest;
        assert !GroupStart(p, i);
      }
    }
  }

  /** `Groups` lists exactly the maximal vowel runs of the string. */
  lemma GroupsExact(p: seq<char>)
    ensures var gs := Groups(p);
      forall k | 0 <= k < |p| :: GroupStart(p, k) <==> SpanAt(gs, k)
  {
    GroupsFromExact(p, 0);
  }

  // ---------------------------------------------------------------- default stress

  /** `phonemes.endswith(tuple(VOWELS)) or phonemes.endswith(('n', 's'))`. */
  predicate EndsLikePenult(p: seq<char>) {
    |p| > 0 && (IsPlainVowel(p[|p| - 1]) || p[|p| - 1] == 'n' || p[|p| - 1] == 's')
  }

  /** The first position in [lo, hi) holding a plain vowel. */
  function FirstPlainVowel(p: seq<char>, lo: nat, hi: nat): (r: Option<nat>)
    requires lo <= hi <= |p|
    ensures r.Some? ==> lo <= r.value < hi && IsPlainVowel(p[r.value])
                        && forall i | lo <= i < r.value :: !IsPlainVowel(p[i])
    ensures r.None? ==> forall i | lo <= i < hi :: !IsPlainVowel(p[i])
    decreases hi - lo
  {
    if lo == hi then None
    else if IsPlainVowel(p[lo]) then Some(lo)
    else FirstPlainVowel(p, lo + 1, hi)
  }

  /** The index of the group `add_stress_if_needed` targets: the penultimate group when the
      string ends in a plain vowel, n or s, the final one otherwise, clamped at 0. */
  function TargetIndex(p: seq<char>, groups: nat): (t: nat)
    ensures groups >= 1 ==> t < groups
  {
    var t := groups - (if EndsLikePenult(p) then 2 else 1);
    if t < 0 then 0 else t
  }

  /** The position `add_stress_if_needed` accents, if any. */
  function StressTarget(p: seq<char>): (r: Option<nat>)
    ensures r.Some? ==> r.value < |p| && IsPlainVowel(p[r.value])
  {
    if HasAccent(p) then None
    else
      var gs := Groups(p);
      if |gs| <= 1 then None
      else
        var g := gs[TargetIndex(p, |gs|)];
        FirstPlainVowel(p, g.start, g.end)
  }

  /** The string `add_stress_if_needed` returns. */
  function StressMarked(p: seq<char>): seq<char> {
    match StressTarget(p)
    case None => p
    case Some(j) => p[..j] + [Acute(p[j])] + p[j + 1..]
  }

  /** `add_stress_if_needed`: the vowel scan of the target group with its early return. */
  method AddStressIfNeeded(p: seq<char>) returns (r: seq<char>)
    ensures r == StressMarked(p)
  {
    if HasAccent(p) {
      return p;
    }
    var groups := Groups(p);
    if |groups| <= 1 {
      return p;
    }
    var endsLikePenult := EndsLikePenult(p);
    var targetIdx: int := |groups| - (if endsLikePenult then 2 else 1);
    if targetIdx < 0 {
      targetIdx := 0;
    }
    assert targetIdx == TargetIndex(p, |groups|);
    var g := groups[targetIdx];
    assert StressTarget(p) == FirstPlainVowel(p, g.start, g.end);
    for j := g.start to g.end
      invariant FirstPlainVowel(p, g.start, g.end) == FirstPlainVowel(p, j, g.end)
    {
      if IsPlainVowel(p[j]) {
        return p[..j] + [Acute(p[j])] + p[j + 1..];
      }
    }
    return p;
  }

  /** The group `add_stress_if_needed` stresses: the penultimate when the string ends in a
      plain vowel, n or s, the final one otherwise. */
  function TargetGroup(p: seq<char>): Span
    requires |Groups(p)| >= 2
  {
    var gs := Groups(p);
    gs[|gs| - (if EndsLikePenult(p) then 2 else 1)]
  }

  /** Default stress leaves the string alone exactly when it already carries an accent or
      has at most one vowel group; otherwise it changes one character only, the first vowel
      of the target group, into its acute form. */
  lemma {:induction false} StressMarkedChange(p: seq<char>)
    ensures StressMarked(p) == p <==> HasAccent(p) || |Groups(p)| <= 1
    ensures !HasAccent(p) && |Groups(p)| >= 2 ==>
      var j := TargetGroup(p).start;
      var r := StressMarked(p);
      && GroupStart(p, j)
      && |r| == |p| && r[j] == Acute(p[j])
      && forall i | 0 <= i < |p| && i != j :: r[i] == p[i]
  {
    if !HasAccent(p) && |Groups(p)| >= 2 {
      TargetIsGroupStart(p);
      var j := TargetGroup(p).start;
      SpliceAt(p, j, Acute(p[j]));
    }
  }

  /** Without an accent and with two or more groups, the target is the first vowel of the
      chosen group. */
  lemma TargetIsGroupStart(p: seq<char>)
    requires !HasAccent(p) && |Groups(p)| >= 2
    ensures var j := TargetGroup(p).start; GroupStart(p, j) && StressTarget(p) == Some(j)
  {
    var gs := Groups(p);
    var m := |gs| - (if EndsLikePenult(p) then 2 else 1);
    var j := gs[m].start;
    assert !IsAccented(p[j]);
    assert FirstPlainVowel(p, j, gs[m].end) == Some(j);
    assert TargetIndex(p, |gs|) == m;
    GroupsExact(p);
    assert SpanAt(gs, j);
  }

  /** Replacing the character at `j` by a different one changes exactly that position. */
  lemma SpliceAt(p: seq<char>, j: nat, c: char)
    requires j < |p| && c != p[j]
    ensures var r := p[..j] + [c] + p[j + 1..];
      && r != p && |r| == |p| && r[j] == c
      && forall i | 0 <= i < |p| && i != j :: r[i] == p[i]
  {
    var r := p[..j] + [c] + p[j + 1..];
    assert r[j] != p[j];
  }


  /** After default stress a string with two or more vowel groups carries an accent. */
  lemma StressMarkedAccents(p: seq<char>)
    ensures HasAccent(StressMarked(p)) <==> HasAccent(p) || |Groups(p)| >= 2
  {
    StressMarkedChange(p);
    if !HasAccent(p) && |Groups(p)| >= 2 {
      assert IsAccented(StressMarked(p)[TargetGroup(p).start]);
    }
  }

  /** Default stress only ever writes an accented vowel, so it adds no marker. */
  lemma StressMarkedKeepsMarkers(p: seq<char>)
    ensures Count('ˈ', StressMarked(p)) == Count('ˈ', p)
  {
    match StressTarget(p)
    case None =>
    case Some(j) =>
      assert p == p[..j] + [p[j]] + p[j + 1..];
      CountConcat('ˈ', p[..j] + [p[j]], p[j + 1..]);
      CountConcat('ˈ', p[..j], [p[j]]);
      CountConcat('ˈ', p[..j] + [Acute(p[j])], p[j + 1..]);
      CountConcat('ˈ', p[..j], [Acute(p[j])]);
  }

  // ---------------------------------------------------------------- glides

  /** The vowels before or after which an i becomes j: a, e, o, plain or accented. */
  const OpenVowels: seq<char> := "aeoáéó"

  /** The vowels before or after which a u becomes w: every vowel but u and ú. */
  const NonUVowels: seq<char> := "aeioáéíó"

  predicate IsOpen(c: char) { c == 'a' || c == 'e' || c == 'o' || c == 'á' || c == 'é' || c == 'ó' }

  predicate IsNonU(c: char) { IsOpen(c) || c == 'i' || c == 'í' }

  lemma GlideClasses(c: char)
    ensures c in OpenVowels <==> IsOpen(c)
    ensures c in NonUVowels <==> IsNonU(c)
  {
  }

  /** `i(?=[aeoáéó])` → j. */
  const IBefore := Rule("i", "j", AnyBehind, AheadIn([OpenVowels]))

  /** `u(?=[aeioáéíó])` → w. */
  const UBefore := Rule("u", "w", AnyBehind, AheadIn([NonUVowels]))

  /** `(?<=[aeoáéó])i` → j. */
  const IAfter := Rule("i", "j", BehindIn(OpenVowels), AnyAhead)

  /** `(?<=[aeioáéíó])u` → w. */
  const UAfter := Rule("u", "w", BehindIn(NonUVowels), AnyAhead)

  /** `apply_glides`. Outside "full" mode the string is returned as it is; in "full" mode
      the four rewrites run in turn, each on the previous one's output. */
  function ApplyGlides(cfg: Config, p: seq<char>): (r: seq<char>)
    ensures |r| == |p|
  {
    if cfg.glideMode != "full" then p
    else
      var p1 := Sub(IBefore, p, None);
      var p2 := Sub(UBefore, p1, None);
      var p3 := Sub(IAfter, p2, None);
      OneForOneLength(IBefore, p, None);
      OneForOneLength(UBefore, p1, None);
      OneForOneLength(IAfter, p2, None);
      OneForOneLength(UAfter, p3, None);
      Sub(UAfter, p3, None)
  }

  /** Position `j` holds a, e or o (plain or accented). */
  predicate OpenAt(p: seq<char>, j: int) { 0 <= j < |p| && IsOpen(p[j]) }

  /** The i at `k` becomes the glide j: an a, e or o stands right before or right after it. */
  predicate IGlide(p: seq<char>, k: int) {
    0 <= k < |p| && p[k] == 'i' && (OpenAt(p, k + 1) || OpenAt(p, k - 1))
  }

  /** Position `j` holds a vowel other than u that stays a vowel (it is not an i turning
      into j). */
  predicate SteadyAt(p: seq<char>, j: int) { 0 <= j < |p| && IsNonU(p[j]) && !IGlide(p, j) }

  /** The u at `k` becomes the glide w: a vowel other than u that stays a vowel stands right
      after or right before it. */
  predicate UGlide(p: seq<char>, k: int) {
    0 <= k < |p| && p[k] == 'u' && (SteadyAt(p, k + 1) || SteadyAt(p, k - 1))
  }

  /** What "full" mode leaves at position `k`. */
  function GlideAt(p: seq<char>, k: nat): char
    requires k < |p|
  {
    if IGlide(p, k) then 'j' else if UGlide(p, k) then 'w' else p[k]
  }

  lemma IBeforeAt(p: seq<char>, j: nat)
    requires j < |p|
    ensures |Sub(IBefore, p, None)| == |p|
    ensures Sub(IBefore, p, None)[j] == if p[j] == 'i' && OpenAt(p, j + 1) then 'j' else p[j]
  {
    SubBeforeAt(IBefore, p, j);
    if j + 1 < |p| { GlideClasses(p[j + 1]); }
  }

  lemma UBeforeAt(p: seq<char>, j: nat)
    requires j < |p|
    ensures |Sub(UBefore, p, None)| == |p|
    ensures Sub(UBefore, p, None)[j] == if p[j] == 'u' && j + 1 < |p| && IsNonU(p[j + 1]) then 'w' else p[j]
  {
    SubBeforeAt(UBefore, p, j);
    if j + 1 < |p| { GlideClasses(p[j + 1]); }
  }

  lemma IAfterAt(p: seq<char>, j: nat)
    requires j < |p|
    ensures |Sub(IAfter, p, None)| == |p|
    ensures Sub(IAfter, p, None)[j] == if p[j] == 'i' && OpenAt(p, j - 1) then 'j' else p[j]
  {
    SubAfterAt(IAfter, p, j);
    if j > 0 { GlideClasses(p[j - 1]); }
  }

  lemma UAfterAt(p: seq<char>, j: nat)
    requires j < |p|
    ensures |Sub(UAfter, p, None)| == |p|
    ensures Sub(UAfter, p, None)[j] == if p[j] == 'u' && j > 0 && IsNonU(p[j - 1]) then 'w' else p[j]
  {
    SubAfterAt(UAfter, p, j);
    if j > 0 { GlideClasses(p[j - 1]); }
  }

  /** After the two look-ahead passes: i before a/e/o is j, u before a vowel that stays a
      vowel is w. */
  lemma AheadPassesAt(p: seq<char>, j: nat)
    requires j < |p|
    ensures var p2 := Sub(UBefore, Sub(IBefore, p, None), None);
      |p2| == |p| &&
      p2[j] == if p[j] == 'i' && OpenAt(p, j + 1) then 'j' else if p[j] == 'u' && SteadyAt(p, j + 1) then 'w' else p[j]
  {
    var p1 := Sub(IBefore, p, None);
    IBeforeAt(p, j);
    UBeforeAt(p1, j);
    if j + 1 < |p| {
      IBeforeAt(p, j + 1);
    }
  }

  /** After the third pass: every i next to a/e/o is j. */
  lemma ThreePassesAt(p: seq<char>, j: nat)
    requires j < |p|
    ensures var p3 := Sub(IAfter, Sub(UBefore, Sub(IBefore, p, None), None), None);
      |p3| == |p| &&
      p3[j] == if IGlide(p, j) then 'j' else if p[j] == 'u' && SteadyAt(p, j + 1) then 'w' else p[j]
  {
    var p2 := Sub(UBefore, Sub(IBefore, p, None), None);
    AheadPassesAt(p, j);
    IAfterAt(p2, j);
    if j > 0 {
      AheadPassesAt(p, j - 1);
    }
  }

  /** The four passes leave `GlideAt` at every position. */
  lemma FourPassesAt(p: seq<char>, k: nat)
    requires k < |p|
    ensures var p3 := Sub(IAfter, Sub(UBefore, Sub(IBefore, p, None), None), None);
      |Sub(UAfter, p3, None)| == |p| && Sub(UAfter, p3, None)[k] == GlideAt(p, k)
  {
    var p3 := Sub(IAfter, Sub(UBefore, Sub(IBefore, p, None), None), None);
    ThreePassesAt(p, k);
    UAfterAt(p3, k);
    if k > 0 {
      SteadyThroughThree(p, k - 1);
    }
  }

  /** The fourth pass sees a vowel other than u exactly where one stays a vowel. */
  lemma SteadyThroughThree(p: seq<char>, j: nat)
    requires j < |p|
    ensures var p3 := Sub(IAfter, Sub(UBefore, Sub(IBefore, p, None), None), None);
      |p3| == |p| && (IsNonU(p3[j]) <==> SteadyAt(p, j))
  {
    ThreePassesAt(p, j);
  }

  /** In "full" mode every position is `GlideAt`: an i next to a/e/o becomes j, a u next to
      a vowel other than u that stays a vowel becomes w, nothing else changes. */
  lemma ApplyGlidesAt(cfg: Config, p: seq<char>, k: nat)
    requires cfg.glideMode == "full" && k < |p|
    ensures ApplyGlides(cfg, p)[k] == GlideAt(p, k)
  {
    FourPassesAt(p, k);
  }

  /** A character `apply_glides` may leave at a position that held `c`. */
  predicate GlideOf(c: char, d: char) {
    d == c || (c == 'i' && d == 'j') || (c == 'u' && d == 'w')
  }

  /** Glides keep the length; outside "full" mode nothing changes; in "full" mode exactly
      the i next to a/e/o become j and the u next to a vowel other than u that stays a vowel
      become w, so every position keeps its character or turns i into j or u into w. */
  lemma ApplyGlidesPointwise(cfg: Config, p: seq<char>)
    ensures var r := ApplyGlides(cfg, p);
      && |r| == |p|
      && (cfg.glideMode != "full" ==> r == p)
      && (cfg.glideMode == "full" ==> forall k | 0 <= k < |p| :: r[k] == GlideAt(p, k))
      && forall k | 0 <= k < |p| :: GlideOf(p[k], r[k])
  {
    if cfg.glideMode == "full" {
      forall k | 0 <= k < |p|
        ensures ApplyGlides(cfg, p)[k] == GlideAt(p, k)
      {
        ApplyGlidesAt(cfg, p, k);
      }
    }
  }

  /** Glides never alter an accented vowel nor add a marker. */
  lemma ApplyGlidesKeepsAccents(cfg: Config, p: seq<char>)
    ensures var r := ApplyGlides(cfg, p);
      && |r| == |p|
      && (forall k | 0 <= k < |p| && (IsAccented(p[k]) || p[k] == 'ˈ') :: r[k] == p[k])
      && (forall k | 0 <= k < |p| :: IsAccented(r[k]) <==> IsAccented(p[k]))
      && (forall k | 0 <= k < |p| :: r[k] == 'ˈ' <==> p[k] == 'ˈ')
  {
    ApplyGlidesPointwise(cfg, p);
  }

  // ---------------------------------------------------------------- stress marker

  /** `re.search(r"[áéíóú]", phonemes)`: the first accented vowel. */
  function FirstAccent(p: seq<char>): (r: Option<nat>)
    ensures r.Some? ==> r.value < |p| && IsAccented(p[r.value]) && forall i | 0 <= i < r.value :: !IsAccented(p[i])
    ensures r.None? <==> !HasAccent(p)
  {
    if p == [] then None
    else if IsAccented(p[0]) then Some(0)
    else match FirstAccent(p[1..])
      case None => None
      case Some(k) => Some(k + 1)
  }

  /** Where the marker goes: before the first accented vowel, or before the j or w right in
      front of it. */
  function MarkerPos(p: seq<char>, pos: nat): (m: nat)
    requires pos < |p|
    ensures m == pos || (m == pos - 1 && p[m] in "jw")
    ensures m == pos ==> pos == 0 || p[pos - 1] !in "jw"
  {
    if pos > 0 && p[pos - 1] in "jw" then pos - 1 else pos
  }

  /** The string before the final clean-up: the marker inserted at `MarkerPos` and the
      accented vowel at `pos` replaced by its plain form. */
  function WithMarker(p: seq<char>, pos: nat): (r: seq<char>)
    requires pos < |p|
    ensures |r| == |p| + 1 && r[MarkerPos(p, pos)] == 'ˈ'
    ensures r[..MarkerPos(p, pos)] == p[..MarkerPos(p, pos)] && r[pos + 2..] == p[pos + 1..]
  {
    var startPos := MarkerPos(p, pos);
    var base := StripAccents([p[pos]]);
    p[..startPos] + ['ˈ'] + p[startPos..pos] + base + p[pos + 1..]
  }

  /** `insert_stress_marker_and_clean`. The result never holds an accented vowel. */
  function InsertStressMarker(p: seq<char>): (r: seq<char>)
    ensures forall c | c in r :: !IsAccented(c)
  {
    match FirstAccent(p)
    case None => StripAccents(p)
    case Some(pos) => StripAccents(WithMarker(p, pos))
  }

  /** Stripping accents neither adds nor removes a character that is not a vowel, such as
      the marker. */
  lemma CountStripAccents(m: char, s: seq<char>)
    requires !IsVowel(m)
    ensures Count(m, StripAccents(s)) == Count(m, s)
  {
    var r := StripAccents(s);
    forall k | 0 <= k < |r| ensures r[k] == m <==> s[k] == m {
      assert r[k] == Unaccent(s[k]);
    }
    CountPointwise(m, r, s);
  }

  /** Deleting the character between two parts gives back the two parts. */
  lemma DeleteBetween(u: seq<char>, c: char, v: seq<char>)
    ensures var r := u + [c] + v; r[|u|] == c && r[..|u|] + r[|u| + 1..] == u + v
  {
    var r := u + [c] + v;
    assert r[..|u|] == u && r[|u| + 1..] == v;
  }

  /** The plain-form insertion is the input with the marker placed at `MarkerPos`. */
  lemma WithMarkerShape(p: seq<char>, pos: nat)
    requires pos < |p|
    ensures var m := MarkerPos(p, pos);
      WithMarker(p, pos) == p[..m] + ['ˈ'] + p[m..pos] + [Unaccent(p[pos])] + p[pos + 1..]
  {
    assert StripAccents([p[pos]]) == [Unaccent(p[pos])];
  }

  /** Cleaning up after the insertion strips the accents on both sides of the marker. */
  lemma WithMarkerSplit(p: seq<char>, pos: nat)
    requires pos < |p|
    ensures var m := MarkerPos(p, pos);
      StripAccents(WithMarker(p, pos)) == StripAccents(p[..m]) + ['ˈ'] + StripAccents(p[m..])
  {
    var m := MarkerPos(p, pos);
    var a, b, c, d := p[..m], p[m..pos], p[pos], p[pos + 1..];
    calc {
      StripAccents(WithMarker(p, pos));
      { WithMarkerShape(p, pos); }
      StripAccents(a + ['ˈ'] + b + [Unaccent(c)] + d);
      { MarkerIsNoVowel(); StripAroundMarker('ˈ', a, b, c, d); }
      StripAccents(a) + ['ˈ'] + StripAccents(b + [c] + d);
      { assert p[m..] == b + [c] + d; }
      StripAccents(a) + ['ˈ'] + StripAccents(p[m..]);
    }
  }

  /** Cleaning up after a marker inserted before position `pos` leaves the marker at
      `MarkerPos` and the accent-stripped input around it. */
  lemma WithMarkerStripped(p: seq<char>, pos: nat)
    requires pos < |p|
    ensures var m := MarkerPos(p, pos);
      var r := StripAccents(WithMarker(p, pos));
      && (m == pos || (m == pos - 1 && p[pos - 1] in "jw"))
      && |r| == |p| + 1 && r[m] == 'ˈ'
      && r[..m] + r[m + 1..] == StripAccents(p)
  {
    var m := MarkerPos(p, pos);
    WithMarkerSplit(p, pos);
    var sa, sb := StripAccents(p[..m]), StripAccents(p[m..]);
    DeleteBetween(sa, 'ˈ', sb);
    assert p == p[..m] + p[m..];
    StripAccentsConcat(p[..m], p[m..]);
  }

  /** Without an accented vowel only the accents are stripped; with one, exactly one marker
      is inserted, in front of the first accented vowel or of the glide right before it,
      and deleting it gives the accent-stripped input. */
  lemma InsertStressMarkerPlaces(p: seq<char>)
    ensures !HasAccent(p) ==> InsertStressMarker(p) == StripAccents(p)
    ensures HasAccent(p) ==>
      var pos := FirstAccent(p).value;
      var m := MarkerPos(p, pos);
      var r := InsertStressMarker(p);
      && (m == pos || (m == pos - 1 && p[pos - 1] in "jw"))
      && |r| == |p| + 1 && r[m] == 'ˈ'
      && r[..m] + r[m + 1..] == StripAccents(p)
  {
    if HasAccent(p) {
      WithMarkerStripped(p, FirstAccent(p).value);
    }
  }

  /** A marker between two parts adds one to their markers. */
  lemma CountAroundMarker(u: seq<char>, v: seq<char>)
    ensures Count('ˈ', u + ['ˈ'] + v) == Count('ˈ', u) + 1 + Count('ˈ', v)
  {
    CountConcat('ˈ', u + ['ˈ'], v);
    CountConcat('ˈ', u, ['ˈ']);
  }

  /** Inserting the marker and stripping the accents adds exactly one marker. */
  lemma WithMarkerCount(p: seq<char>, pos: nat)
    requires pos < |p|
    ensures Count('ˈ', StripAccents(WithMarker(p, pos))) == Count('ˈ', p) + 1
  {
    var m := MarkerPos(p, pos);
    var a, b := p[..m], p[m..];
    var sa, sb := StripAccents(a), StripAccents(b);
    WithMarkerSplit(p, pos);
    calc {
      Count('ˈ', StripAccents(WithMarker(p, pos)));
      Count('ˈ', sa + ['ˈ'] + sb);
      { CountAroundMarker(sa, sb); }
      Count('ˈ', sa) + 1 + Count('ˈ', sb);
      { MarkerIsNoVowel(); CountStripAccents('ˈ', a); CountStripAccents('ˈ', b); }
      Count('ˈ', a) + 1 + Count('ˈ', b);
      { CountSplit('ˈ', p, m); }
      Count('ˈ', p) + 1;
    }
  }

  /** The cleaned string holds exactly one more marker than its input when the input has an
      accented vowel, and as many otherwise. */
  lemma InsertStressMarkerCount(p: seq<char>)
    ensures Count('ˈ', InsertStressMarker(p)) == Count('ˈ', p) + (if HasAccent(p) then 1 else 0)
  {
    match FirstAccent(p)
    case None =>
      MarkerIsNoVowel();
      CountStripAccents('ˈ', p);
    case Some(pos) =>
      WithMarkerCount(p, pos);
  }
}
