# Spanish grapheme-to-phoneme front end, modelled in Dafny

This project models the text front end of a Spanish text-to-speech script.

- `g2p_lib.py` turns Spanish text into a phone string with the stress marker `ˈ`:
  - it spaces out punctuation and splits the text into pieces;
  - every word piece runs through four stages: the ordered grapheme rewrite chain
    (`map_graphemes`), default stress (`add_stress_if_needed`), optional glides
    (`apply_glides`), and the marker step (`insert_stress_marker_and_clean`);
  - the pieces are joined and wrapped as `/ … /`.
- `tts-kokoro-esp.py` tokenizes that string against a phoneme vocabulary:
  - `tokenize_ipa` trims it, drops or keeps `ˈ` and rewrites the `tʃ` ligature;
  - it then scans greedily for the longest vocabulary key at each position;
  - `get_phoneme_map` is the fixed vocabulary it is used with.

Modules, in dependency order:

| file | module | what it holds |
|---|---|---|
| strings.dfy | `Strings` | vowel classes, `Count`, `strip`, `strip(chars)`, `split(" ")`, `" ".join` |
| rewrite.dfy | `Rewrite` | `re.sub` of a literal with look-behind/look-ahead, and `str.replace`, as left-to-right non-overlapping scanners |
| normalize.dfy | `Normalize` | `_space_punct`, `normalize_word`, `strip_accents` |
| graphemes.dfy | `Graphemes` | the two configuration switches as a `Config` value, and `map_graphemes` split into its rule stages |
| stress.dfy | `Stress` | `add_stress_if_needed` (a method with its loop), `apply_glides`, `insert_stress_marker_and_clean` |
| pipeline.dfy | `Pipeline` | `g2p` (a method with its loop over the pieces) |
| tokenizer.dfy | `Tokenizer` | `tokenize_ipa`: the preprocessing, and the greedy scan as a method with its loop |
| phonemes.dfy | `Phonemes` | `get_phoneme_map`, and the tokenization of the output for "casa" |

Each method is proved equal to a specification function: `AddStressIfNeeded` to
`StressMarked`, `G2p` to `G2pSpec`, and `GreedyScan`/`TokenizeIpa` to `Scan`. The
properties are then proved about those functions.

The module-level switches `NASAL_ASSIMILATION` and `GLIDE_MODE` are the `Config`
parameter, so both settings of each are verified. `DefaultConfig` holds the shipped
values.

## Model

| member | source | states |
|---|---|---|
| Strings.StripBy | g2p_lib.py:38 | `strip` (`Strip`, whitespace) and `strip('/')` (`StripSlashes`): the result is a slice of the input; everything cut from the right end is dropped characters; the result neither starts nor ends with one |
| Strings.StripByOne | tts-kokoro-esp.py:49 | `StripSlashes` on a string with a single slash at each end removes exactly those two slashes |
| Strings.Split | g2p_lib.py:201 | `split(" ")` gives at least one piece, no piece holds a space, and `Join` (`" ".join`) of the pieces gives the text back |
| Strings.SplitJoin | g2p_lib.py:201 | splitting undoes `Join` when no piece holds a space |
| Rewrite.Sub | g2p_lib.py:77-88 | a `re.sub` rewrite adds only characters of its replacement; an unguarded one-character pattern absent from the replacement vanishes |
| Rewrite.SubOneForOne | g2p_lib.py:161-166 | a one-for-one character rule keeps the length and rewrites exactly the positions where the pattern stands in the required context, judged on the original string |
| Rewrite.Replace | g2p_lib.py:69-99 | `str.replace` adds only characters of its replacement; a one-character pattern absent from the replacement vanishes |
| Rewrite.SubAbsent | g2p_lib.py:59-62 | a rule whose pattern starts with a character the text lacks leaves the text unchanged |
| Rewrite.ReplaceAbsent | tts-kokoro-esp.py:56-57 | `replace` leaves a string unchanged when the pattern occurs nowhere in it |
| Normalize.PadPunctSeparates | g2p_lib.py:34 | after `PadPunct` (the `_PUNCT_RE.sub`) no punctuation character stands next to a character other than whitespace |
| Normalize.PadPunctNonSpace | g2p_lib.py:34 | `PadPunct` adds only whitespace: its non-whitespace characters are the input's, in order |
| Normalize.EllipsisSplitIsDead | g2p_lib.py:34-36 | after every punctuation character has been spaced out, no `...` is left for the ellipsis rule, so that rule never changes anything |
| Normalize.Collapse | g2p_lib.py:38 | `re.sub(r'\s+', ' ')` gives the empty string only for the empty string, starts with a space exactly when the input starts with whitespace, and otherwise starts with the input's first character |
| Normalize.CollapseSpaces | g2p_lib.py:38 | after `Collapse` the only whitespace is the plain space and no two whitespace characters are neighbours |
| Normalize.CollapseNonSpace | g2p_lib.py:38 | `Collapse` keeps the non-whitespace characters, in order |
| Normalize.CollapseKeepsSeparated | g2p_lib.py:38 | `Collapse` keeps punctuation separated from everything but whitespace |
| Normalize.StripLayout | g2p_lib.py:38 | stripping text whose whitespace is single plain spaces leaves no whitespace at either end and keeps the spaces single and plain |
| Normalize.SpacePunctCollapsed | g2p_lib.py:32-38 | `SpacePunct` is the strip of a string whose punctuation is separated, whose whitespace is single plain spaces, and whose non-whitespace characters are the input's |
| Normalize.SpacePunctLayout | g2p_lib.py:32-38 | `_space_punct`'s result has no whitespace at either end, only plain spaces as whitespace, and never two spaces in a row |
| Normalize.SpacePunctIsolates | g2p_lib.py:24-38 | every punctuation character of `_PUNCT_CHARS` in the result is preceded and followed by a space or an end of the string, so it forms a token of its own |
| Normalize.SpacePunctKeepsText | g2p_lib.py:32-38 | `_space_punct` keeps every non-whitespace character, in order |
| Normalize.NormalizeWord | g2p_lib.py:40-41 | lowering keeps the length, leaves no capital and changes only capitals, each to its lower-case form |
| Normalize.NormalizeWordIdempotent | g2p_lib.py:40-41 | lowering twice is lowering once |
| Normalize.StripAccents | g2p_lib.py:43-44 | `strip_accents` keeps the length, maps each character through the acute-to-plain table and leaves no acute vowel |
| Normalize.StripAccentsFixes | g2p_lib.py:43-44 | a string without acute vowels is unchanged |
| Graphemes.NasalAssimilation | g2p_lib.py:57-62 | the optional assimilation keeps the length and only ever writes ŋ |
| Graphemes.NasalAssimilationPlaces | g2p_lib.py:57-62 | each n followed by g, by k, by qu, or by c and one of a o u á ó ú becomes ŋ; every other character is kept; a word without n is unchanged |
| Graphemes.Affricates | g2p_lib.py:68-74 | no ch and no x is left; a word-initial ch becomes ʧ and a word-initial x becomes s; only ʧ, s and k are written |
| Graphemes.VelarFricative | g2p_lib.py:76-77 | after the g and j rules no j is left, and only x was written |
| Graphemes.VelarFricativePlaces | g2p_lib.py:76-77 | the length is kept; each j, and each g before e é i í, becomes x; every other character is kept |
| Graphemes.SilentU | g2p_lib.py:80-87 | the gu/qu rule leaves no g (or q) followed by u and one of e é i í, and writes only its replacement letter |
| Graphemes.Dieresis | g2p_lib.py:81 | the gü rule writes only g and w |
| Graphemes.DieresisPlaces | g2p_lib.py:81 | the length is kept; the ü of each gü becomes w; every other character is kept |
| Graphemes.DieresisLeaves | g2p_lib.py:80-81 | after the gu rule, the gü rule leaves no gu before e é i í and no gü |
| Graphemes.Velars | g2p_lib.py:76-81 | after the velar rules no j, no gu before e é i í and no gü is left; only x, g and w were written |
| Graphemes.SibilantC | g2p_lib.py:84-86 | after the c and z rules no c and no z is left; only s and k were written |
| Graphemes.SibilantPlaces | g2p_lib.py:84-86 | the length is kept; a c before e é i í becomes s, any other c becomes k, each z becomes s; every other character is kept |
| Graphemes.Sibilants | g2p_lib.py:84-87 | after the c, z and qu rules no c, no z and no qu before e é i í is left; only s and k were written |
| Graphemes.SpellH | g2p_lib.py:93-95 | the h rules read in one pass: hi or hu before a vowel becomes j or w, any other h is dropped, everything else is copied; no h is left |
| Graphemes.Aspirates | g2p_lib.py:93-95 | after the three h passes no h is left, and only the glides j and w were written |
| Graphemes.AspiratesSpelled | g2p_lib.py:93-95 | the three passes as written give, on every word, exactly the one-pass reading `SpellH` |
| Graphemes.AspiratesHead | g2p_lib.py:93-95 | read from the front: hi or hu before a vowel becomes j or w and the vowel is read next; any other h is dropped; any other letter is copied |
| Graphemes.Consonants | g2p_lib.py:68-99 | after the consonant rules none of c, z, v, h, ñ is left, and only ʧ s k x g w b j ɲ were written |
| Graphemes.YRules | g2p_lib.py:102-105 | the three y rules keep the length and write only ʝ and j |
| Graphemes.YRulesAt | g2p_lib.py:102-105 | at each position: a y followed by a vowel, at the word start or after a non-vowel, becomes ʝ; a y after a vowel at the end (`$`: last, or before a final newline) becomes j; every other character is kept |
| Graphemes.YRulesPlaces | g2p_lib.py:102-105 | the statement of `YRulesAt` for all positions at once |
| Graphemes.Yeismo | g2p_lib.py:101-105 | after the ll and y rules no ll is left; only ʝ and j were written |
| Graphemes.FinalNasal | g2p_lib.py:107-110 | with assimilation on, a word-final n becomes ŋ and the rest is kept; with it off, or without a final n, the word is unchanged |
| Graphemes.ClassifyRhotics | g2p_lib.py:112-119 | the single-pass rhotic rule adds no character but the tap ɾ |
| Graphemes.RhoticsClassified | g2p_lib.py:112-119 | `Rhotics`, the placeholder chain (rr, initial r, `StrengthenClusters` for r after l/n/s, other r to ɾ, marks to r), equals the single-pass classification on text without `R` |
| Graphemes.InnerTap | g2p_lib.py:112-119 | the placeholder passes turn a lone r (not part of rr) into the tap ɾ and treat the rest as on its own |
| Graphemes.InnerCluster | g2p_lib.py:115-119 | `StrengthenClusters` and the passes after it keep an l, n or s and turn the lone r after it into the trill r |
| Graphemes.ChainKeepsOut | g2p_lib.py:64-119 | a character that no rule after the `y` test writes, absent from the word, is absent from the result |
| Graphemes.Prepared | g2p_lib.py:55-62 | the word the rules see holds no capital letter |
| Graphemes.MapGraphemes | g2p_lib.py:47-121 | the word `y` in either case gives exactly `i`; any output holds none of c, z, v, h, ñ and no capital |
| Graphemes.MapGraphemesCh | g2p_lib.py:47-121 | a word whose lower-case form starts with ch is transcribed starting with ʧ, under either setting |
| Graphemes.MapGraphemesRhotics | g2p_lib.py:112-119 | for every other word, a word-initial r, an rr and an r after l/n/s come out as the trill r and every other r as the tap ɾ |
| Graphemes.MapGraphemesNoMarker | g2p_lib.py:47-121 | the rules never write the stress marker ˈ |
| Stress.Acute | g2p_lib.py:21 | `ACCENT_VOWEL_MAP` gives an accented vowel whose plain form is the input |
| Stress.GroupsFrom | g2p_lib.py:133 | the vowel groups are reported in order, disjoint, inside the string, each starting at a vowel and ending where its vowel run ends |
| Stress.GroupsExact | g2p_lib.py:133 | `Groups` starts a span exactly at the start of each maximal vowel run |
| Stress.FirstPlainVowel | g2p_lib.py:144-146 | the first plain vowel in a range, or none when the range has none |
| Stress.TargetIndex | g2p_lib.py:137-140 | the group index `add_stress_if_needed` picks, clamped at 0, always names one of the groups |
| Stress.StressTarget | g2p_lib.py:129-147 | the position to accent, when there is one, holds a plain vowel |
| Stress.TargetIsGroupStart | g2p_lib.py:129-146 | with no accented vowel and two or more groups, the accented position is the first vowel of the chosen group, which starts a vowel run |
| Stress.AddStressIfNeeded | g2p_lib.py:123-148 | the loop over the target group returns what the specification `StressMarked` gives |
| Stress.StressMarkedChange | g2p_lib.py:129-147 | `StressMarked` returns the input unchanged iff it already has an accented vowel or at most one vowel group; otherwise exactly one character changes, the first vowel of the penultimate group (string ends in a plain vowel, n or s, `EndsLikePenult`) or of the final group, which gets its acute form |
| Stress.StressMarkedAccents | g2p_lib.py:129-147 | the result has an accented vowel iff the input had one or has two or more vowel groups |
| Stress.StressMarkedKeepsMarkers | g2p_lib.py:123-148 | default stress neither adds nor removes ˈ |
| Stress.ApplyGlides | g2p_lib.py:150-167 | `apply_glides` keeps the length |
| Stress.ApplyGlidesAt | g2p_lib.py:159-166 | in "full" mode, position k of the result is `GlideAt`: an i next to one of a e o á é ó becomes j; otherwise a u next to a vowel other than u that itself stays a vowel becomes w; every other character is kept |
| Stress.ApplyGlidesPointwise | g2p_lib.py:150-167 | the length is kept; outside "full" mode the string is unchanged; in "full" mode every position is `GlideAt` of the input; every position keeps its character or turns a plain i into j or a plain u into w |
| Stress.ApplyGlidesKeepsAccents | g2p_lib.py:159-166 | accented vowels and markers are never altered, and no new one appears |
| Stress.FirstAccent | g2p_lib.py:175-176 | the first accented vowel, and none exactly when there is no accented vowel |
| Stress.MarkerPos | g2p_lib.py:179-182 | the marker goes at the vowel, or one place earlier exactly when a j or w stands right before the vowel |
| Stress.WithMarker | g2p_lib.py:184-185 | the string before clean-up is one longer, holds ˈ at `MarkerPos`, and keeps the input before the marker and after the vowel |
| Stress.InsertStressMarker | g2p_lib.py:169-186 | the result holds no accented vowel |
| Stress.WithMarkerStripped | g2p_lib.py:179-186 | the marker lands at the vowel or at the j/w right before it, and deleting it gives `strip_accents` of the input |
| Stress.InsertStressMarkerPlaces | g2p_lib.py:175-186 | with no accented vowel the result is `strip_accents(input)`; otherwise one ˈ sits right before the first accented vowel or its preceding j/w, and deleting it gives `strip_accents(input)` |
| Stress.InsertStressMarkerCount | g2p_lib.py:175-186 | exactly one ˈ is added when the input has an accented vowel, none otherwise |
| Pipeline.TranscribeWord | g2p_lib.py:208-211 | the four word stages produce no accented vowel |
| Pipeline.TranscribeToken | g2p_lib.py:204-211 | a punctuation-only piece (`IsPunctToken`) is passed through unchanged; no piece comes out with an accented vowel |
| Pipeline.Wrap | g2p_lib.py:215 | the wrapped result is "//" exactly for an empty result; otherwise it is four characters longer and the result sits unchanged between "/ " and " /" |
| Pipeline.G2p | g2p_lib.py:189-215 | the loop over the pieces returns what the specification `G2pSpec` gives |
| Pipeline.TranscribePieces | g2p_lib.py:200-212 | `Transcribe`, the `out` list, holds in order one entry per non-empty piece: the piece itself when it is punctuation only, its transcription otherwise |
| Pipeline.JoinAccentFree | g2p_lib.py:214 | joining accent-free pieces gives an accent-free string |
| Pipeline.G2pAccentFree | g2p_lib.py:189-215 | the output of `g2p` (`G2pSpec`) never contains an accented vowel |
| Pipeline.G2pShape | g2p_lib.py:194-215 | empty text gives "//"; any output of `G2pSpec` is "//" or "/ " + a non-empty inner part with no whitespace at its ends + " /" |
| Pipeline.WordMarkers | g2p_lib.py:208-211 | a word piece without ˈ gets exactly one ˈ when its phones carry an accent or have two or more vowel groups, and none otherwise |
| Tokenizer.NoLigatureLeft | tts-kokoro-esp.py:56-57 | after rewriting tʃ to ʧ no tʃ is left |
| Tokenizer.ReplaceKeepsCount | tts-kokoro-esp.py:56-57 | the ligature rewrite neither adds nor removes a ˈ |
| Tokenizer.PreprocessStress | tts-kokoro-esp.py:49-53 | after `Preprocess` all ˈ are removed unless stress is kept and ˈ is a key; when kept, their number is unchanged by preprocessing |
| Tokenizer.PreprocessLigature | tts-kokoro-esp.py:49-57 | in `Preprocess`, tʃ is rewritten (none left) when ʧ is a key and tʃ is not; otherwise this step changes nothing |
| Tokenizer.LongestMatch | tts-kokoro-esp.py:60-71 | the length of the longest key that is a prefix of the rest of the string, 0 when none is |
| Tokenizer.LongestMatchUnique | tts-kokoro-esp.py:60-71 | any length with those two properties is that length |
| Tokenizer.LongestKeyAt | tts-kokoro-esp.py:60-71 | the search over the keys at position i finds the longest matching key |
| Tokenizer.Scan | tts-kokoro-esp.py:62-75 | the scan gives no more pieces than characters, none exactly for the empty string, and every token is a non-empty key of the vocabulary |
| Tokenizer.Unknowns | tts-kokoro-esp.py:61-75 | the `tokens` list (`Tokens`) and the `unknown` list together hold exactly one entry per piece |
| Tokenizer.GreedyScan | tts-kokoro-esp.py:61-76 | the `while` loop returns the tokens and unknown characters of the scan, in order |
| Tokenizer.TokenizeIpa | tts-kokoro-esp.py:44-76 | `tokenize_ipa` is preprocessing followed by the scan |
| Tokenizer.ScanCovers | tts-kokoro-esp.py:62-75 | interleaving tokens and unknown characters in scan order gives back the scanned string, and every token is a non-empty key |
| Tokenizer.ScanLength | tts-kokoro-esp.py:62-75 | the token lengths plus the number of unknown characters add up to the length of the scanned string |
| Tokenizer.ScanGreedy | tts-kokoro-esp.py:60-75 | each piece is greedy where it stands: a token is the longest key matching there, and an unknown character is recorded only where no key matches |
| Tokenizer.ScanSingleChars | tts-kokoro-esp.py:60-75 | with one-character keys only, the scan is a per-character lookup |
| Tokenizer.PreprocessCasaWith | tts-kokoro-esp.py:49-57 | for "/ kˈasa /", preprocessing keeps the inner spaces and gives " kˈasa " |
| Tokenizer.AllTokens | tts-kokoro-esp.py:66-71 | a scan of key matches only has no unknown character and lists the keys |
| Tokenizer.ScanCasaWith | tts-kokoro-esp.py:60-76 | " kˈasa " scans to the tokens ' ', k, ˈ, a, s, a, ' ' and nothing unknown |
| Phonemes.PhonemeMap | tts-kokoro-esp.py:18-41 | every key of the vocabulary is a single character |
| Phonemes.PhonemeMapFacts | tts-kokoro-esp.py:22-40 | ˈ and ʧ are keys, tʃ is not, and the space is key 16 |
| Phonemes.PreprocessCasa | tts-kokoro-esp.py:49-57 | with the shipped vocabulary, `"/ kˈasa /"` preprocesses to `" kˈasa "` |
| Phonemes.ScanCasa | tts-kokoro-esp.py:60-76 | with the shipped vocabulary it tokenizes to `[' ', 'k', 'ˈ', 'a', 's', 'a', ' ']` with no unknowns |

Notes on the code as written:

- The ellipsis rule at g2p_lib.py:36 cannot fire, because every `.` has already been
  spaced out at line 34. So `...` becomes three separate `.` tokens through line 34 alone,
  and the single character `…` stays one token. `Normalize.EllipsisSplitIsDead` proves this.
- `add_stress_if_needed` is modelled as written, including the `target_idx < 0` clamp and
  the fall-through `return phonemes` after the loop. `Stress.StressMarkedChange` shows
  that neither is reached when no accent is present and there are two or more groups. The
  target group then starts with a plain vowel.
- `apply_glides` runs its four passes one after another, so a later pass sees what an
  earlier one wrote. In "uia" the i becomes j before the a, and the u then stays u: the
  character after it is no longer a vowel. `Stress.GlideAt` states this through
  `SteadyAt`.
- `map_graphemes` treats a word-initial `y` before a vowel and a `y` after a non-vowel
  before a vowel alike (ʝ), turns only a word-final `y` after a vowel into j, and keeps a
  `y` between two vowels as it is (`Graphemes.YRulesAt`).
- `insert_stress_marker_and_clean` marks only the first accented vowel. Later accented
  vowels are only stripped.
- `tokenize_ipa` searches the keys in order of decreasing length and stops at the first
  prefix. The model takes the longest key that is a prefix, searched over the key set.
  Both give the same token: two keys of the same length that are both prefixes at one
  position are the same string (`Tokenizer.LongestMatchUnique`).
- The shipped vocabulary is written as one match over characters and a map comprehension
  over it. Every key of the source's dictionary is one character, so the two maps are equal.

## Left out

- `main` in tts-kokoro-esp.py: console input, the ONNX session, loading voices, floating
  point style vectors, audio writing and playback, and the 510-token truncation and
  padding inside it. These are I/O, foreign libraries and floating point.
- `_normalize_nfc`: the text is taken to be in NFC already, so this step is the identity.
  Unicode normalisation is not modelled.
- Normalize.NormalizeWord: lowers only A–Z and Á É Í Ó Ú Ñ Ü, not every letter Python's
  `str.lower` lowers.
- The regular-expression engine: each `re.sub` and `re.search` in the core is modelled by
  the scanner for its fixed pattern. The look-behind guard reads the original character
  before the match. `$` matches at the end and before a final newline.
- Tokenizer.LongestKeyAt: does not model the `sorted(..., key=len, reverse=True)` order
  of the key list. It searches the key set for the longest matching key, which selects
  the same key.
- Graphemes.Prepared and Graphemes.MapGraphemes: the configuration is a parameter instead
  of mutable module globals.
- Graphemes.Consonants: the effect of the whole consonant stage is not stated position by
  position. The ch, x, gu, qu and hi/hu rules change the length, so positions are stated
  for each length-keeping step (`VelarFricativePlaces`, `DieresisPlaces`,
  `SibilantPlaces`) and the h rules against the one-pass reading (`AspiratesSpelled`).
- Graphemes.Affricates: the position of an inner ch or x in the result is not stated,
  because both rules change the length. The contract states that none is left, what a
  word-initial one becomes, and which letters are written.
- Graphemes.Velars: the gu rule shortens the word, so positions are stated for the g/j
  step and the gü step on their own (`VelarFricativePlaces`, `DieresisPlaces`), and the gu
  rule only as "no gu before e é i í is left".
- Graphemes.Sibilants: the qu rule is stated only as "no qu before e é i í is left"; the
  c and z rules are stated position by position (`SibilantPlaces`).
- Graphemes.Yeismo: the ll rule is stated only as "no ll is left", since it shortens the
  word; the y rules are stated position by position (`YRulesAt`).
- Stress.ApplyGlides: its own contract states the length only; the positions are stated
  by `Stress.ApplyGlidesAt` and `Stress.ApplyGlidesPointwise`.
