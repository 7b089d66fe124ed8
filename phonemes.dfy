/** `get_phoneme_map`: the fixed vocabulary the tokenizer is used with, and what
    tokenizing `g2p` output with it gives. */
module Phonemes {
  import opened Strings
  import opened Rewrite
  import opened Tokenizer

  /** The entries of `get_phoneme_map`, by the single character each key consists of. */
  function PhonemeId(c: char): Option<int> {
    match c
    case ';' => Some(1) case ':' => Some(2) case ',' => Some(3) case '.' => Some(4)
    case '!' => Some(5) case '?' => Some(6) case '—' => Some(9) case '…' => Some(10)
    case '"' => Some(11) case '(' => Some(12) case ')' => Some(13) case '“' => Some(14)
    case '”' => Some(15) case ' ' => Some(16) case '\U{0303}' => Some(17) case 'ʣ' => Some(18)
    case 'ʥ' => Some(19) case 'ʦ' => Some(20) case 'ʨ' => Some(21) case 'ᵝ' => Some(22)
    case '\U{AB67}' => Some(23) case 'A' => Some(24) case 'I' => Some(25) case 'O' => Some(31)
    case 'Q' => Some(33) case 'S' => Some(35) case 'T' => Some(36) case 'W' => Some(39)
    case 'Y' => Some(41) case 'ᵊ' => Some(42) case 'a' => Some(43) case 'b' => Some(44)
    case 'c' => Some(45) case 'd' => Some(46) case 'e' => Some(47) case 'f' => Some(48)
    case 'h' => Some(50) case 'i' => Some(51) case 'j' => Some(52) case 'k' => Some(53)
    case 'l' => Some(54) case 'm' => Some(55) case 'n' => Some(56) case 'o' => Some(57)
    case 'p' => Some(58) case 'q' => Some(59) case 'r' => Some(60) case 's' => Some(61)
    case 't' => Some(62) case 'u' => Some(63) case 'v' => Some(64) case 'w' => Some(65)
    case 'x' => Some(66) case 'y' => Some(67) case 'z' => Some(68) case 'ɑ' => Some(69)
    case 'ɐ' => Some(70) case 'ɒ' => Some(71) case 'æ' => Some(72) case 'β' => Some(75)
    case 'ɔ' => Some(76) case 'ɕ' => Some(77) case 'ç' => Some(78) case 'ɖ' => Some(80)
    case 'ð' => Some(81) case 'ʤ' => Some(82) case 'ə' => Some(83) case 'ɚ' => Some(85)
    case 'ɛ' => Some(86) case 'ɜ' => Some(87) case 'ɟ' => Some(90) case 'g' => Some(92)
    case 'ɥ' => Some(99) case 'ɨ' => Some(101) case 'ɪ' => Some(102) case 'ʝ' => Some(103)
    case 'ɯ' => Some(110) case 'ɰ' => Some(111) case 'ŋ' => Some(112) case 'ɳ' => Some(113)
    case 'ɲ' => Some(114) case 'ɴ' => Some(115) case 'ø' => Some(116) case 'ɸ' => Some(118)
    case 'θ' => Some(119) case 'œ' => Some(120) case 'ɹ' => Some(123) case 'ɾ' => Some(125)
    case 'ɻ' => Some(126) case 'ʁ' => Some(128) case 'ɽ' => Some(129) case 'ʂ' => Some(130)
    case 'ʃ' => Some(131) case 'ʈ' => Some(132) case 'ʧ' => Some(133) case 'ʊ' => Some(135)
    case 'ʋ' => Some(136) case 'ʌ' => Some(138) case 'ɣ' => Some(139) case 'ɤ' => Some(140)
    case 'χ' => Some(142) case 'ʎ' => Some(143) case 'ʒ' => Some(147) case 'ʔ' => Some(148)
    case 'ˈ' => Some(156) case 'ˌ' => Some(157) case 'ː' => Some(158) case 'ʰ' => Some(162)
    case 'ʲ' => Some(164) case '↓' => Some(169) case '→' => Some(171) case '↗' => Some(172)
    case '↘' => Some(173) case 'ᵻ' => Some(177)
    case _ => None
  }

  /** `get_phoneme_map`: the fixed vocabulary, keyed by one-character strings. */
  function PhonemeMap(): (m: Vocab)
    ensures forall k | k in m :: |k| == 1
  {
    map c: char | PhonemeId(c).Some? :: [c] := PhonemeId(c).value
  }

  /** The stress mark and the ligature ʧ are keys, the two-letter tʃ is not, and the space
      is a key with id 16. */
  lemma PhonemeMapFacts()
    ensures "ˈ" in PhonemeMap() && "ʧ" in PhonemeMap() && "tʃ" !in PhonemeMap()
    ensures " " in PhonemeMap() && PhonemeMap()[" "] == 16
  {
    KeyOf('ˈ');
    KeyOf('ʧ');
    KeyOf(' ');
    assert ['ˈ'] == "ˈ" && ['ʧ'] == "ʧ" && [' '] == " ";
    assert |"tʃ"| == 2;
  }

  /** Every phoneme with an id is a one-character key mapped to that id. */
  lemma KeyOf(c: char)
    requires PhonemeId(c).Some?
    ensures [c] in PhonemeMap() && PhonemeMap()[[c]] == PhonemeId(c).value
  {
  }

  /** Preprocessing the `g2p` output for "casa" with the shipped vocabulary. */
  lemma PreprocessCasa()
    ensures Preprocess("/ kˈasa /", PhonemeMap(), true) == " kˈasa "
  {
    PhonemeMapFacts();
    PreprocessCasaWith(PhonemeMap());
  }

  /** Tokenizing it then yields one token per character and no unknown character. */
  lemma ScanCasa()
    ensures var ps := Scan(PhonemeMap(), " kˈasa ");
      Tokens(ps) == [" ", "k", "ˈ", "a", "s", "a", " "] && Unknowns(ps) == []
  {
    var vocab := PhonemeMap();
    assert PhonemeId('k').Some? && PhonemeId('a').Some? && PhonemeId('s').Some?;
    assert ['k'] == "k" && ['a'] == "a" && ['s'] == "s";
    PhonemeMapFacts();
    ScanCasaWith(vocab);
  }
}
