/**
 * The keyword test of the bot (`normalizeText`, `containsInfoKeyword`,
 * `containsSchedulerKeyword`): message and keywords are lower-cased, decomposed (NFD)
 * and stripped of combining marks, then the message is searched for each keyword.
 */
module Keywords {
  import opened Options
  import opened JsText

  const InfoKeywords: seq<string> := ["info", "recibida", "información", "informacion", "quiero saber"]
  const SchedulerKeywords: seq<string> := ["fdgdgdg", "hfhgfhfd"]

  /** `toLowerCase` on one character, for the ASCII and Latin-1 capitals. */
  function LowerChar(c: char): char {
    if 'A' <= c <= 'Z' || ('\U{00C0}' <= c <= '\U{00DE}' && c != '\U{00D7}') then (c as int + 32) as char
    else c
  }

  function ToLower(s: string): string {
    seq(|s|, i requires 0 <= i < |s| => LowerChar(s[i]))
  }

  /** A combining diacritical mark, U+0300 to U+036F: what the final `replace` removes. */
  predicate IsMark(c: char) {
    '\U{0300}' <= c <= '\U{036F}'
  }

  const Grave := '\U{0300}'
  const Acute := '\U{0301}'
  const Circumflex := '\U{0302}'
  const Tilde := '\U{0303}'
  const Diaeresis := '\U{0308}'
  const Ring := '\U{030A}'
  const Cedilla := '\U{0327}'

  /**
   * The canonical decomposition (NFD) of one character, for the precomposed Latin-1
   * letters: a base letter followed by its combining mark. Other characters are kept.
   */
  function Decompose(c: char): string {
    if c == '\U{00FF}' then ['y', Diaeresis]
    else
      var lower := '\U{00E0}' <= c <= '\U{00FE}';
      var u := if lower then c as int - 32 else c as int;
      var off := if lower then 32 else 0;
      if 0xC0 <= u <= 0xC5 then [('A' as int + off) as char, [Grave, Acute, Circumflex, Tilde, Diaeresis, Ring][u - 0xC0]]
      else if u == 0xC7 then [('C' as int + off) as char, Cedilla]
      else if 0xC8 <= u <= 0xCB then [('E' as int + off) as char, [Grave, Acute, Circumflex, Diaeresis][u - 0xC8]]
      else if 0xCC <= u <= 0xCF then [('I' as int + off) as char, [Grave, Acute, Circumflex, Diaeresis][u - 0xCC]]
      else if u == 0xD1 then [('N' as int + off) as char, Tilde]
      else if 0xD2 <= u <= 0xD6 then [('O' as int + off) as char, [Grave, Acute, Circumflex, Tilde, Diaeresis][u - 0xD2]]
      else if 0xD9 <= u <= 0xDC then [('U' as int + off) as char, [Grave, Acute, Circumflex, Diaeresis][u - 0xD9]]
      else if u == 0xDD then [('Y' as int + off) as char, Acute]
      else [c]
  }

  /** `normalize("NFD")`, character by character. */
  function Nfd(s: string): string {
    if s == [] then [] else Decompose(s[0]) + Nfd(s[1..])
  }

  /** The final `replace`: every character from U+0300 to U+036F removed. */
  function StripMarks(s: string): (r: string)
    ensures forall i :: 0 <= i < |r| ==> !IsMark(r[i])
  {
    if s == [] then [] else (if IsMark(s[0]) then [] else [s[0]]) + StripMarks(s[1..])
  }

  /** The normal form of a (truthy) string. */
  function Normalize(s: string): string {
    StripMarks(Nfd(ToLower(s)))
  }

  /** `normalizeText`: a missing or empty text normalises to the empty string. */
  function NormalizeText(text: Option<string>): string {
    if text.None? || text.value == "" then "" else Normalize(text.value)
  }

  lemma NormalizeTextOfString(s: string)
    ensures NormalizeText(Some(s)) == Normalize(s)
  {
  }

  lemma ToLowerAppend(a: string, b: string)
    ensures ToLower(a + b) == ToLower(a) + ToLower(b)
  {
  }

  lemma {:induction false} NfdAppend(a: string, b: string)
    ensures Nfd(a + b) == Nfd(a) + Nfd(b)
  {
    if a != [] {
      assert (a + b)[0] == a[0];
      assert (a + b)[1..] == a[1..] + b;
      NfdAppend(a[1..], b);
      assert Nfd(a + b) == Decompose(a[0]) + (Nfd(a[1..]) + Nfd(b));
    } else {
      assert a + b == b;
    }
  }

  lemma {:induction false} StripMarksAppend(a: string, b: string)
    ensures StripMarks(a + b) == StripMarks(a) + StripMarks(b)
  {
    if a != [] {
      assert (a + b)[0] == a[0];
      assert (a + b)[1..] == a[1..] + b;
      StripMarksAppend(a[1..], b);
      assert StripMarks(a + b) == (if IsMark(a[0]) then [] else [a[0]]) + (StripMarks(a[1..]) + StripMarks(b));
    } else {
      assert a + b == b;
    }
  }

  /** Normalisation works character by character, so it distributes over concatenation. */
  lemma NormalizeAppend(a: string, b: string)
    ensures Normalize(a + b) == Normalize(a) + Normalize(b)
  {
    ToLowerAppend(a, b);
    NfdAppend(ToLower(a), ToLower(b));
    StripMarksAppend(Nfd(ToLower(a)), Nfd(ToLower(b)));
  }

  /** A character normalisation leaves alone. */
  predicate IsNormal(c: char) {
    LowerChar(c) == c && Decompose(c) == [c] && !IsMark(c)
  }

  /** Decomposing a lower-cased character gives normal characters and marks only. */
  lemma DecomposeLower(c: char)
    ensures forall i :: 0 <= i < |Decompose(LowerChar(c))| ==>
      IsMark(Decompose(LowerChar(c))[i]) || IsNormal(Decompose(LowerChar(c))[i])
  {
  }

  lemma {:induction false} NormalChars(s: string)
    requires forall i :: 0 <= i < |s| ==> IsMark(s[i]) || IsNormal(s[i])
    ensures forall i :: 0 <= i < |StripMarks(s)| ==> IsNormal(StripMarks(s)[i])
  {
    if s != [] {
      NormalChars(s[1..]);
      assert forall i :: 0 <= i < |s[1..]| ==> s[1..][i] == s[i + 1];
    }
  }

  lemma {:induction false} NfdOfLower(s: string)
    ensures forall i :: 0 <= i < |Nfd(ToLower(s))| ==> IsMark(Nfd(ToLower(s))[i]) || IsNormal(Nfd(ToLower(s))[i])
  {
    if s != [] {
      assert ToLower(s) == [LowerChar(s[0])] + ToLower(s[1..]);
      NfdAppend([LowerChar(s[0])], ToLower(s[1..]));
      assert Nfd([LowerChar(s[0])]) == Decompose(LowerChar(s[0]));
      DecomposeLower(s[0]);
      NfdOfLower(s[1..]);
    }
  }

  /** A string of normal characters is its own normal form. */
  lemma {:induction false} NormalizeOfNormal(s: string)
    requires forall i :: 0 <= i < |s| ==> IsNormal(s[i])
    ensures Normalize(s) == s
  {
    assert ToLower(s) == s;
    if s != [] {
      NormalizeOfNormal(s[1..]);
      assert ToLower(s[1..]) == s[1..];
      assert Nfd(s) == [s[0]] + Nfd(s[1..]);
    }
  }

  /** Normalising twice is normalising once. */
  lemma NormalizeIdempotent(s: string)
    ensures Normalize(Normalize(s)) == Normalize(s)
  {
    NfdOfLower(s);
    NormalChars(Nfd(ToLower(s)));
    NormalizeOfNormal(Normalize(s));
  }

  /** Some keyword, once normalised, occurs in the normalised message (tested in list order). */
  function AnyKeywordIn(normalizedMsg: string, keywords: seq<string>): bool {
    keywords != [] &&
    (Includes(normalizedMsg, NormalizeText(Some(keywords[0]))) || AnyKeywordIn(normalizedMsg, keywords[1..]))
  }

  function ContainsKeyword(messageText: Option<string>, keywords: seq<string>): bool {
    AnyKeywordIn(NormalizeText(messageText), keywords)
  }

  /** `containsInfoKeyword`. */
  function ContainsInfoKeyword(messageText: Option<string>): bool {
    ContainsKeyword(messageText, InfoKeywords)
  }

  /** `containsSchedulerKeyword`. */
  function ContainsSchedulerKeyword(messageText: Option<string>): bool {
    ContainsKeyword(messageText, SchedulerKeywords)
  }

  /** A message matches exactly when it includes, once both are normalised, one of the keywords. */
  lemma {:induction false} ContainsKeywordIff(messageText: Option<string>, keywords: seq<string>)
    ensures ContainsKeyword(messageText, keywords) <==>
      exists k :: k in keywords && Includes(NormalizeText(messageText), NormalizeText(Some(k)))
  {
    if keywords != [] {
      ContainsKeywordIff(messageText, keywords[1..]);
      assert forall k :: k in keywords <==> k == keywords[0] || k in keywords[1..];
    }
  }

  /** The normal form of one character. */
  lemma NormalizeChar(c: char)
    ensures Normalize([c]) == StripMarks(Decompose(LowerChar(c)))
  {
    var l := LowerChar(c);
    assert ToLower([c]) == [l];
    assert [l][1..] == [];
    assert Nfd([l]) == Decompose(l) + Nfd([]);
    assert Decompose(l) + [] == Decompose(l);
  }

  /** An ASCII letter normalises to its lower-case form. */
  lemma NormalizeAsciiLetter(c: char)
    requires 'a' <= c <= 'z' || 'A' <= c <= 'Z'
    ensures Normalize([c]) == [LowerChar(c)] && 'a' <= LowerChar(c) <= 'z'
  {
    NormalizeChar(c);
    var l := LowerChar(c);
    assert Decompose(l) == [l];
    assert StripMarks([l]) == [l] + StripMarks([]);
  }

  /** A string that starts with an ASCII letter has a non-empty normal form. */
  lemma NormalizeNonEmpty(s: string)
    requires s != "" && ('a' <= s[0] <= 'z' || 'A' <= s[0] <= 'Z')
    ensures NormalizeText(Some(s)) != ""
  {
    assert s == [s[0]] + s[1..];
    NormalizeAppend([s[0]], s[1..]);
    NormalizeAsciiLetter(s[0]);
  }

  /** Every keyword of both lists has a non-empty normal form. */
  lemma KeywordsNonEmpty()
    ensures forall k :: k in InfoKeywords ==> NormalizeText(Some(k)) != ""
    ensures forall k :: k in SchedulerKeywords ==> NormalizeText(Some(k)) != ""
  {
    forall k | k in InfoKeywords + SchedulerKeywords
      ensures NormalizeText(Some(k)) != ""
    {
      NormalizeNonEmpty(k);
    }
  }

  /** A missing or empty message matches no keyword. */
  lemma FalsyMessageMatchesNothing(messageText: Option<string>)
    requires messageText.None? || messageText == Some("")
    ensures !ContainsInfoKeyword(messageText) && !ContainsSchedulerKeyword(messageText)
  {
    KeywordsNonEmpty();
    ContainsKeywordIff(messageText, InfoKeywords);
    ContainsKeywordIff(messageText, SchedulerKeywords);
  }

  /**
   * A message holding a word whose normal form is a keyword's (the keyword itself, or it
   * in capitals or with accents) matches, wherever the word stands.
   */
  lemma WordInMessage(before: string, word: string, after: string, keywords: seq<string>, k: string)
    requires k in keywords && Normalize(word) == NormalizeText(Some(k))
    ensures ContainsKeyword(Some(before + word + after), keywords)
  {
    var m := before + word + after;
    NormalizeAppend(before + word, after);
    NormalizeAppend(before, word);
    assert Normalize(m) == Normalize(before) + Normalize(word) + Normalize(after);
    var n := Normalize(m);
    var w := Normalize(word);
    assert n[|Normalize(before)|..|Normalize(before)| + |w|] == w;
    IncludesAt(n, w, |Normalize(before)|);
    ContainsKeywordIff(Some(m), keywords);
  }

  /** Lower-case ASCII letters and spaces are already normal. */
  lemma NormalizePlain(s: string)
    requires forall i :: 0 <= i < |s| ==> 'a' <= s[i] <= 'z' || s[i] == ' '
    ensures Normalize(s) == s
  {
    forall i | 0 <= i < |s|
      ensures IsNormal(s[i])
    {
      assert Decompose(s[i]) == [s[i]];
    }
    NormalizeOfNormal(s);
  }

  /** ASCII letters and spaces normalise to their lower-case forms. */
  lemma NormalizeAscii(s: string)
    requires forall i :: 0 <= i < |s| ==> 'a' <= s[i] <= 'z' || 'A' <= s[i] <= 'Z' || s[i] == ' '
    ensures Normalize(s) == ToLower(s)
  {
    var l := ToLower(s);
    NormalizePlain(l);
    assert ToLower(l) == l;
  }

  lemma NormalizeAccentedO()
    ensures Normalize("ó") == "o" && Normalize("Ó") == "o"
  {
    NormalizeChar('ó');
    assert Decompose('ó') == ['o', Acute];
    assert StripMarks(['o', Acute]) == ['o'] + StripMarks([Acute]);
    NormalizeChar('Ó');
    assert LowerChar('Ó') == 'ó';
  }

  /** Plain letters around an "ó" normalise to the same letters around an "o". */
  lemma NormalizeAroundAccentedO(stem: string, tail: string)
    requires forall i :: 0 <= i < |stem| ==> 'a' <= stem[i] <= 'z' || stem[i] == ' '
    requires forall i :: 0 <= i < |tail| ==> 'a' <= tail[i] <= 'z' || tail[i] == ' '
    ensures Normalize(stem + "ó" + tail) == stem + "o" + tail
  {
    NormalizeAccentedO();
    NormalizePlain(stem);
    NormalizePlain(tail);
    NormalizeAppend(stem, "ó");
    NormalizeAppend(stem + "ó", tail);
  }

  /** The accented keyword "información" has the normal form of the plain keyword "informacion". */
  lemma AccentedKeyword()
    ensures NormalizeText(Some(InfoKeywords[2])) == InfoKeywords[3]
  {
    var stem, tail := "informaci", "n";
    assert InfoKeywords[2] == stem + "ó" + tail;
    assert InfoKeywords[3] == stem + "o" + tail;
    NormalizeAroundAccentedO(stem, tail);
  }

  /** A message that says "INFO" in capitals, anywhere, asks for information. */
  lemma CapitalInfo(before: string, after: string)
    ensures ContainsInfoKeyword(Some(before + "INFO" + after))
  {
    var word := "INFO";
    assert forall i :: 0 <= i < |word| ==> 'A' <= word[i] <= 'Z';
    NormalizeAscii(word);
    assert ToLower(word) == InfoKeywords[0];
    NormalizePlain(InfoKeywords[0]);
    WordInMessage(before, word, after, InfoKeywords, InfoKeywords[0]);
  }
}
