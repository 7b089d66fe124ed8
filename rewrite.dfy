/** The two string-rewriting primitives the grapheme rules are written with:
    `re.sub` of a literal pattern guarded by look-behind / look-ahead
    assertions, and `str.replace`. Both scan the ORIGINAL string left to
    right, replace non-overlapping matches and never rescan replaced text. */
module Rewrite {
  import opened Strings

  /** What a look-behind demands of the character before a match. */
  datatype Behind =
    | AnyBehind                      // no look-behind
    | AtStart                        // `^`
    | BehindIn(cls: seq<char>)       // `(?<=[cls])`
    | BehindNotIn(cls: seq<char>)    // `(?<=[^cls])`

  /** What a look-ahead demands of the text after a match. */
  datatype Ahead =
    | AnyAhead                       // no look-ahead
    | AtEnd                          // `$`
    | AheadIn(classes: seq<seq<char>>)  // `(?=[c1][c2]...)`

  /** `pat` is replaced by `rep` where the surrounding text satisfies `behind` and `ahead`. */
  datatype Rule = Rule(pat: seq<char>, rep: seq<char>, behind: Behind, ahead: Ahead)

  predicate BehindOk(b: Behind, prev: Option<char>) {
    match b
    case AnyBehind => true
    case AtStart => prev.None?
    case BehindIn(cls) => prev.Some? && prev.value in cls
    case BehindNotIn(cls) => prev.Some? && prev.value !in cls
  }

  /** Python's `$` (without MULTILINE) holds at the end and just before a final newline. */
  predicate AheadOk(a: Ahead, rest: seq<char>) {
    match a
    case AnyAhead => true
    case AtEnd => rest == [] || rest == "\n"
    case AheadIn(classes) =>
      |classes| <= |rest| && forall k | 0 <= k < |classes| :: rest[k] in classes[k]
  }

  /** The rule matches at the start of `s`, where `prev` is the character before `s`
      in the string being rewritten (`None` at its start). */
  predicate MatchesAt(r: Rule, s: seq<char>, prev: Option<char>) {
    |r.pat| <= |s| && s[..|r.pat|] == r.pat && BehindOk(r.behind, prev) && AheadOk(r.ahead, s[|r.pat|..])
  }

  /** The character before position `k` of `s`, when `s` follows `prev`. */
  function PrevAt(s: seq<char>, k: nat, prev: Option<char>): Option<char>
    requires k <= |s|
  {
    if k == 0 then prev else Some(s[k - 1])
  }

  /** `re.sub(rule, rep, s)` on the part `s` of a string whose preceding character is `prev`.
      A rewrite introduces no character other than those of `s` and of the
      replacement, and an unguarded one-character pattern disappears entirely when
      the replacement does not contain it. */
  function Sub(r: Rule, s: seq<char>, prev: Option<char>): (out: seq<char>)
    requires |r.pat| > 0
    decreases |s|
    ensures forall c | c in out :: c in s || c in r.rep
    ensures r.behind == AnyBehind && r.ahead == AnyAhead && |r.pat| == 1 && r.pat[0] !in r.rep
            ==> r.pat[0] !in out
  {
    if s == [] then []
    else if MatchesAt(r, s, prev) then r.rep + Sub(r, s[|r.pat|..], Some(r.pat[|r.pat| - 1]))
    else [s[0]] + Sub(r, s[1..], Some(s[0]))
  }

  /** A one-for-one character rule keeps the length and rewrites exactly the positions
      where the pattern character stands in the context the rule asks for. */
  lemma {:induction false} SubOneForOne(r: Rule, s: seq<char>, prev: Option<char>)
    requires |r.pat| == 1 && |r.rep| == 1
    ensures var out := Sub(r, s, prev);
      && |out| == |s|
      && forall k | 0 <= k < |s| ::
           out[k] == if s[k] == r.pat[0] && BehindOk(r.behind, PrevAt(s, k, prev))
                        && AheadOk(r.ahead, s[k + 1..])
                     then r.rep[0] else s[k]
    decreases |s|
  {
    if s != [] {
      SubOneForOne(r, s[1..], Some(s[0]));
      MatchesOneChar(r, s, prev);
      forall k | 1 <= k < |s|
        ensures PrevAt(s[1..], k - 1, Some(s[0])) == PrevAt(s, k, prev) && s[1..][k - 1 + 1..] == s[k + 1..]
      {
      }
    }
  }

  /** A one-character pattern matches where that character stands in the right context,
      and the scan resumes after it. */
  lemma MatchesOneChar(r: Rule, s: seq<char>, prev: Option<char>)
    requires |r.pat| == 1 && s != []
    ensures MatchesAt(r, s, prev) <==> s[0] == r.pat[0] && BehindOk(r.behind, prev) && AheadOk(r.ahead, s[1..])
    ensures MatchesAt(r, s, prev) ==> r.pat[|r.pat| - 1] == s[0] && s[|r.pat|..] == s[1..]
  {
    if s[0] == r.pat[0] { assert s[..1] == r.pat; }
  }

  /** A rule whose pattern's first character never occurs changes nothing. */
  lemma {:induction false} SubAbsent(r: Rule, s: seq<char>, prev: Option<char>)
    requires |r.pat| > 0 && r.pat[0] !in s
    ensures Sub(r, s, prev) == s
    decreases |s|
  {
    if s != [] {
      assert !MatchesAt(r, s, prev) by {
        if |r.pat| <= |s| { assert s[..|r.pat|][0] == s[0]; }
      }
      SubAbsent(r, s[1..], Some(s[0]));
    }
  }

  function Plain(pat: seq<char>, rep: seq<char>): Rule { Rule(pat, rep, AnyBehind, AnyAhead) }

  /** `s.replace(pat, rep)`. */
  function Replace(s: seq<char>, pat: seq<char>, rep: seq<char>): (out: seq<char>)
    requires |pat| > 0
    ensures forall c | c in out :: c in s || c in rep
    ensures |pat| == 1 && pat[0] !in rep ==> pat[0] !in out
  {
    Sub(Plain(pat, rep), s, None)
  }

  /** An unguarded rule does not look at the character before the text. */
  lemma {:induction false} SubIgnoresPrev(r: Rule, s: seq<char>, p: Option<char>, q: Option<char>)
    requires |r.pat| > 0 && r.behind == AnyBehind
    ensures Sub(r, s, p) == Sub(r, s, q)
  {
  }

  /** Where an unguarded-behind rule matches, it emits the replacement and resumes after the match. */
  lemma SubHit(r: Rule, s: seq<char>, prev: Option<char>)
    requires |r.pat| > 0 && r.behind == AnyBehind && MatchesAt(r, s, prev)
    ensures Sub(r, s, prev) == r.rep + Sub(r, s[|r.pat|..], None)
  {
    SubIgnoresPrev(r, s[|r.pat|..], Some(r.pat[|r.pat| - 1]), None);
  }

  /** Where it does not match, it copies the first character. */
  lemma SubMiss(r: Rule, s: seq<char>, prev: Option<char>)
    requires |r.pat| > 0 && r.behind == AnyBehind && s != [] && !MatchesAt(r, s, prev)
    ensures Sub(r, s, prev) == [s[0]] + Sub(r, s[1..], None)
  {
    SubIgnoresPrev(r, s[1..], Some(s[0]), None);
  }

  /** A prefix holding no first character of the pattern is copied unchanged. */
  lemma {:induction false} SubCopies(r: Rule, u: seq<char>, t: seq<char>, prev: Option<char>)
    requires |r.pat| > 0 && r.behind == AnyBehind && r.pat[0] !in u
    ensures Sub(r, u + t, prev) == u + Sub(r, t, None)
    decreases |u|
  {
    if u == [] {
      assert u + t == t;
      SubIgnoresPrev(r, t, prev, None);
    } else {
      assert !MatchesAt(r, u + t, prev) by {
        if |r.pat| <= |u + t| { assert (u + t)[..|r.pat|][0] == u[0]; }
      }
      SubMiss(r, u + t, prev);
      assert (u + t)[1..] == u[1..] + t;
      SubCopies(r, u[1..], t, None);
    }
  }

  /** Where the pattern does not start, `replace` copies the first character. */
  lemma ReplaceSkip(s: seq<char>, pat: seq<char>, rep: seq<char>)
    requires |pat| > 0 && |s| > 0
    requires !(|pat| <= |s| && s[..|pat|] == pat)
    ensures Replace(s, pat, rep) == [s[0]] + Replace(s[1..], pat, rep)
  {
    SubIgnoresPrev(Plain(pat, rep), s[1..], Some(s[0]), None);
  }

  /** Where the pattern starts, `replace` emits the replacement and resumes after it. */
  lemma ReplaceHit(s: seq<char>, pat: seq<char>, rep: seq<char>)
    requires |pat| > 0 && |pat| <= |s| && s[..|pat|] == pat
    ensures Replace(s, pat, rep) == rep + Replace(s[|pat|..], pat, rep)
  {
    SubIgnoresPrev(Plain(pat, rep), s[|pat|..], Some(pat[|pat| - 1]), None);
  }

  /** A prefix holding no first character of the pattern is copied unchanged. */
  lemma {:induction false} ReplaceCopies(u: seq<char>, t: seq<char>, pat: seq<char>, rep: seq<char>)
    requires |pat| > 0 && pat[0] !in u
    ensures Replace(u + t, pat, rep) == u + Replace(t, pat, rep)
  {
    if u != [] {
      ReplaceSkip(u + t, pat, rep);
      assert (u + t)[1..] == u[1..] + t;
      ReplaceCopies(u[1..], t, pat, rep);
    } else {
      assert u + t == t;
    }
  }

  /** `pat` occurs in `s` starting at index `k`. */
  predicate StartsAt(s: seq<char>, k: nat, pat: seq<char>) {
    k + |pat| <= |s| && s[k..k + |pat|] == pat
  }

  /** A string in which the pattern never starts is left unchanged. */
  lemma {:induction false} ReplaceAbsent(s: seq<char>, pat: seq<char>, rep: seq<char>)
    requires |pat| > 0
    requires forall k: nat | k < |s| :: !StartsAt(s, k, pat)
    ensures Replace(s, pat, rep) == s
  {
    if s != [] {
      assert !StartsAt(s, 0, pat);
      assert |pat| <= |s| ==> s[..|pat|] == s[0..|pat|];
      ReplaceSkip(s, pat, rep);
      forall k: nat | k < |s[1..]|
        ensures !StartsAt(s[1..], k, pat)
      {
        assert !StartsAt(s, k + 1, pat);
        if k + |pat| <= |s[1..]| {
          assert s[1..][k..k + |pat|] == s[k + 1..k + 1 + |pat|];
        }
      }
      ReplaceAbsent(s[1..], pat, rep);
    }
  }

  /** The first character of a rewrite: the replacement's where the rule matches at the
      start, the text's own otherwise; only the empty text rewrites to the empty text. */
  lemma SubHead(r: Rule, s: seq<char>, prev: Option<char>)
    requires |r.pat| > 0 && |r.rep| > 0
    ensures s == [] <==> Sub(r, s, prev) == []
    ensures s != [] ==> Sub(r, s, prev)[0] == if MatchesAt(r, s, prev) then r.rep[0] else s[0]
  {
  }

  /** What a one-for-one character rule writes at position `k`. */
  lemma SubCharAt(r: Rule, s: seq<char>, k: nat)
    requires |r.pat| == 1 && |r.rep| == 1 && k < |s|
    ensures |Sub(r, s, None)| == |s|
    ensures Sub(r, s, None)[k] ==
      if s[k] == r.pat[0] && BehindOk(r.behind, PrevAt(s, k, None)) && AheadOk(r.ahead, s[k + 1..])
      then r.rep[0] else s[k]
  {
    SubOneForOne(r, s, None);
  }

  /** A one-for-one character rule keeps the length. */
  lemma OneForOneLength(r: Rule, s: seq<char>, prev: Option<char>)
    requires |r.pat| == 1 && |r.rep| == 1
    ensures |Sub(r, s, prev)| == |s|
  {
    SubOneForOne(r, s, prev);
  }

  /** A look-ahead of one class reads the next character. */
  lemma AheadOne(rest: seq<char>, cls: seq<char>)
    ensures AheadOk(AheadIn([cls]), rest) <==> |rest| >= 1 && rest[0] in cls
  {
  }

  /** A one-character rule guarded by one look-ahead class rewrites the pattern character
      at `k` exactly when a character of that class follows it. */
  lemma SubBeforeAt(r: Rule, s: seq<char>, k: nat)
    requires |r.pat| == 1 && |r.rep| == 1 && r.behind == AnyBehind
    requires r.ahead.AheadIn? && |r.ahead.classes| == 1 && k < |s|
    ensures |Sub(r, s, None)| == |s|
    ensures Sub(r, s, None)[k] == if s[k] == r.pat[0] && k + 1 < |s| && s[k + 1] in r.ahead.classes[0] then r.rep[0] else s[k]
  {
    SubOneForOne(r, s, None);
    if k + 1 < |s| {
      assert s[k + 1..][0] == s[k + 1];
    }
  }

  /** A one-character rule guarded by a look-behind class rewrites the pattern character at
      `k` exactly when it follows a character of that class. */
  lemma SubAfterAt(r: Rule, s: seq<char>, k: nat)
    requires |r.pat| == 1 && |r.rep| == 1 && r.behind.BehindIn? && r.ahead == AnyAhead && k < |s|
    ensures |Sub(r, s, None)| == |s|
    ensures Sub(r, s, None)[k] == if s[k] == r.pat[0] && k > 0 && s[k - 1] in r.behind.cls then r.rep[0] else s[k]
  {
    SubOneForOne(r, s, None);
  }

  /** `replace` of one character by one character rewrites every occurrence and nothing else. */
  lemma ReplaceCharAt(s: seq<char>, pat: seq<char>, rep: seq<char>, k: nat)
    requires |pat| == 1 && |rep| == 1 && k < |s|
    ensures |Replace(s, pat, rep)| == |s|
    ensures Replace(s, pat, rep)[k] == if s[k] == pat[0] then rep[0] else s[k]
  {
    SubOneForOne(Plain(pat, rep), s, None);
  }

  /** A text that does not start with the pattern's first character keeps its first character. */
  lemma SubKeepsHead(r: Rule, s: seq<char>, prev: Option<char>)
    requires |r.pat| > 0 && s != [] && s[0] != r.pat[0]
    ensures Sub(r, s, prev) != [] && Sub(r, s, prev)[0] == s[0]
  {
    if |r.pat| <= |s| {
      assert s[..|r.pat|][0] == s[0];
    }
  }

  /** No `a` is directly followed by `b`. */
  predicate NoPair(s: seq<char>, a: char, b: char) {
    forall k | 0 <= k < |s| - 1 :: !(s[k] == a && s[k + 1] == b)
  }

  /** No `a` is directly followed by `b` and then by a character of `cls`. */
  predicate NoPairBefore(s: seq<char>, a: char, b: char, cls: seq<char>) {
    forall k | 0 <= k < |s| - 2 :: !(s[k] == a && s[k + 1] == b && s[k + 2] in cls)
  }

  /** `replace` of a two-letter pattern by one letter that is neither of its letters leaves
      no occurrence of the pattern behind. */
  lemma {:induction false} ReplaceLeavesNoPair(s: seq<char>, pat: seq<char>, rep: seq<char>)
    requires |pat| == 2 && |rep| == 1 && rep[0] != pat[0] && rep[0] != pat[1]
    ensures NoPair(Replace(s, pat, rep), pat[0], pat[1])
    decreases |s|
  {
    if |s| >= 2 && s[..2] == pat {
      ReplaceHit(s, pat, rep);
      ReplaceLeavesNoPair(s[2..], pat, rep);
    } else if s != [] {
      ReplaceSkip(s, pat, rep);
      var t := Replace(s[1..], pat, rep);
      ReplaceLeavesNoPair(s[1..], pat, rep);
      if |s| >= 2 {
        if |s| >= 3 && s[1..][..2] == pat {
          ReplaceHit(s[1..], pat, rep);
        } else {
          ReplaceSkip(s[1..], pat, rep);
        }
        assert t[0] == rep[0] || t[0] == s[1];
      }
    }
  }

  /** The rules "ab(?=[cls])" → "c" for which no `ab` before a character of `cls` survives:
      neither letter nor the replacement is in `cls` and the replacement is not `b`. */
  predicate PairRule(r: Rule) {
    && |r.pat| == 2 && |r.rep| == 1 && r.behind == AnyBehind
    && r.ahead.AheadIn? && |r.ahead.classes| == 1
    && r.rep[0] != r.pat[1]
    && r.pat[0] !in r.ahead.classes[0] && r.pat[1] !in r.ahead.classes[0] && r.rep[0] !in r.ahead.classes[0]
  }

  /** Such a rule leaves no `ab` before a character of `cls`. */
  lemma {:induction false} SubLeavesNoPairBefore(r: Rule, s: seq<char>, prev: Option<char>)
    requires PairRule(r)
    ensures NoPairBefore(Sub(r, s, prev), r.pat[0], r.pat[1], r.ahead.classes[0])
    decreases |s|
  {
    if s != [] {
      if MatchesAt(r, s, prev) {
        SubLeavesNoPairBefore(r, s[2..], Some(r.pat[1]));
        PairHit(r, s, prev);
      } else {
        SubLeavesNoPairBefore(r, s[1..], Some(s[0]));
        PairMiss(r, s, prev);
      }
    }
  }

  /** After a match the next character written is the one of `cls` that licensed it. */
  lemma PairHit(r: Rule, s: seq<char>, prev: Option<char>)
    requires PairRule(r) && s != [] && MatchesAt(r, s, prev)
    requires NoPairBefore(Sub(r, s[2..], Some(r.pat[1])), r.pat[0], r.pat[1], r.ahead.classes[0])
    ensures NoPairBefore(Sub(r, s, prev), r.pat[0], r.pat[1], r.ahead.classes[0])
  {
    var t := Sub(r, s[2..], Some(r.pat[1]));
    assert Sub(r, s, prev) == r.rep + t;
    assert |s[2..]| > 0 && s[2] in r.ahead.classes[0];
    SubKeepsHead(r, s[2..], Some(r.pat[1]));
  }

  /** Where the rule does not match, the copied `a` is not followed by `b` and a letter of `cls`. */
  lemma PairMiss(r: Rule, s: seq<char>, prev: Option<char>)
    requires PairRule(r) && s != [] && !MatchesAt(r, s, prev)
    requires NoPairBefore(Sub(r, s[1..], Some(s[0])), r.pat[0], r.pat[1], r.ahead.classes[0])
    ensures NoPairBefore(Sub(r, s, prev), r.pat[0], r.pat[1], r.ahead.classes[0])
  {
    var t := Sub(r, s[1..], Some(s[0]));
    assert Sub(r, s, prev) == [s[0]] + t;
    SubHead(r, s[1..], Some(s[0]));
    if |s| >= 2 && s[0] == r.pat[0] && s[1] == r.pat[1] && !MatchesAt(r, s[1..], Some(s[0])) {
      assert t == [s[1]] + Sub(r, s[2..], Some(s[1]));
      assert s[..2] == r.pat;
      SubHead(r, s[2..], Some(s[1]));
    }
  }

  /** `replace("ab", "ac")` with `a != b` changes exactly the `b`s that follow an `a`. */
  lemma {:induction false} ReplaceSecondOfPair(s: seq<char>, pat: seq<char>, rep: seq<char>)
    requires |pat| == 2 && |rep| == 2 && rep[0] == pat[0] && pat[0] != pat[1]
    ensures |Replace(s, pat, rep)| == |s|
    ensures forall k | 0 <= k < |s| ::
      Replace(s, pat, rep)[k] == if k > 0 && s[k - 1] == pat[0] && s[k] == pat[1] then rep[1] else s[k]
    decreases |s|
  {
    if |s| >= 2 && s[..2] == pat {
      ReplaceHit(s, pat, rep);
      ReplaceSecondOfPair(s[2..], pat, rep);
      assert s[0] == pat[0] && s[1] == pat[1];
      var out := Replace(s, pat, rep);
      forall k | 2 <= k < |s|
        ensures out[k] == if s[k - 1] == pat[0] && s[k] == pat[1] then rep[1] else s[k]
      {
        assert s[2..][k - 2] == s[k];
        if k > 2 { assert s[2..][k - 3] == s[k - 1]; }
      }
    } else if s != [] {
      ReplaceSkip(s, pat, rep);
      ReplaceSecondOfPair(s[1..], pat, rep);
      var out := Replace(s, pat, rep);
      forall k | 1 <= k < |s|
        ensures out[k] == if s[k - 1] == pat[0] && s[k] == pat[1] then rep[1] else s[k]
      {
        assert s[1..][k - 1] == s[k];
        if k > 1 {
          assert s[1..][k - 2] == s[k - 1];
        }
      }
    }
  }

  /** Replacing one character by a non-empty text holding neither `a` nor `b` creates no
      `ab`. */
  lemma {:induction false} ReplaceKeepsNoPair(s: seq<char>, pat: seq<char>, rep: seq<char>, a: char, b: char)
    requires |pat| == 1 && |rep| > 0 && a !in rep && b !in rep && NoPair(s, a, b)
    ensures NoPair(Replace(s, pat, rep), a, b)
    decreases |s|
  {
    if s != [] {
      var t := Replace(s[1..], pat, rep);
      var head := if s[0] == pat[0] then rep else [s[0]];
      if s[0] == pat[0] {
        ReplaceHit(s, pat, rep);
      } else {
        ReplaceSkip(s, pat, rep);
      }
      assert NoPair(s[1..], a, b);
      ReplaceKeepsNoPair(s[1..], pat, rep, a, b);
      if |s| >= 2 {
        if s[1] == pat[0] { ReplaceHit(s[1..], pat, rep); } else { ReplaceSkip(s[1..], pat, rep); }
      }
      var out := head + t;
      forall k | 0 <= k < |out| - 1
        ensures !(out[k] == a && out[k + 1] == b)
      {
        if k < |head| - 1 {
        } else if k == |head| - 1 {
          assert out[k] == head[|head| - 1] && out[k + 1] == t[0];
        } else {
          assert out[k] == t[k - |head|] && out[k + 1] == t[k - |head| + 1];
        }
      }
    }
  }
}
