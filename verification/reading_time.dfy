/**
 * The reading-time label of a post: the markdown emphasis characters are
 * deleted, the text is trimmed and cut into words at runs of whitespace, and
 * the word count at 225 words a minute, rounded up, is printed as
 * "<n> min read".
 */
module ReadingTime {
  import opened Text

  const WordsPerMinute: nat := 225

  /** The characters deleted as markdown formatting: `#`, `*`, `_`, `~`. */
  predicate IsFormatting(c: char) {
    c == '#' || c == '*' || c == '_' || c == '~'
  }

  /** The characters of the regular-expression class `\s`, which are also those `trim` removes. */
  predicate IsSpace(c: char) {
    || c == '\t' || c == '\n' || c == '\U{000B}' || c == '\U{000C}' || c == '\r' || c == ' '
    || c == '\U{00A0}' || c == '\U{1680}' || ('\U{2000}' <= c <= '\U{200A}')
    || c == '\U{2028}' || c == '\U{2029}' || c == '\U{202F}' || c == '\U{205F}'
    || c == '\U{3000}' || c == '\U{FEFF}'
  }

  /** `replace(/[#*_~]/g, '')`. */
  function StripFormatting(s: string): (r: string)
    ensures |r| <= |s|
    ensures forall k :: 0 <= k < |r| ==> !IsFormatting(r[k])
    decreases |s|
  {
    if |s| == 0 then []
    else (if IsFormatting(s[0]) then [] else [s[0]]) + StripFormatting(s[1..])
  }

  /** Exactly the formatting characters go; the others stay, in order. */
  lemma {:induction false} StripFormattingKeepsText(s: string, c: char)
    ensures c in StripFormatting(s) <==> c in s && !IsFormatting(c)
    ensures (forall k :: 0 <= k < |s| ==> !IsFormatting(s[k])) ==> StripFormatting(s) == s
    decreases |s|
  {
    if |s| > 0 {
      StripFormattingKeepsText(s[1..], c);
      assert s == [s[0]] + s[1..];
    }
  }

  /** Stripping twice strips nothing more. */
  lemma StripFormattingIdempotent(s: string)
    ensures StripFormatting(StripFormatting(s)) == StripFormatting(s)
  {
    StripFormattingKeepsText(StripFormatting(s), ' ');
  }

  /** `s` without its leading whitespace. */
  function TrimStart(s: string): (r: string)
    ensures |r| > 0 ==> !IsSpace(r[0])
    decreases |s|
  {
    if |s| > 0 && IsSpace(s[0]) then TrimStart(s[1..]) else s
  }

  /** `s` without its trailing whitespace. */
  function TrimEnd(s: string): (r: string)
    ensures |r| > 0 ==> !IsSpace(r[|r| - 1])
    decreases |s|
  {
    if |s| > 0 && IsSpace(s[|s| - 1]) then TrimEnd(s[..|s| - 1]) else s
  }

  /** `trim`. */
  function Trim(s: string): (r: string)
    ensures |r| > 0 ==> !IsSpace(r[0]) && !IsSpace(r[|r| - 1])
  {
    var e := TrimEnd(s);
    TrimStartKeepsEnd(e);
    TrimStart(e)
  }

  lemma {:induction false} TrimStartKeepsEnd(s: string)
    ensures |TrimStart(s)| > 0 ==> TrimStart(s)[|TrimStart(s)| - 1] == s[|s| - 1]
    decreases |s|
  {
    if |s| > 0 && IsSpace(s[0]) {
      TrimStartKeepsEnd(s[1..]);
    }
  }

  /** A word: a non-empty run of non-whitespace characters. */
  predicate IsWord(w: string) {
    |w| > 0 && forall k :: 0 <= k < |w| ==> !IsSpace(w[k])
  }

  /** The length of the word `s` starts with. */
  function RunLength(s: string): (n: nat)
    requires |s| > 0 && !IsSpace(s[0])
    ensures 1 <= n <= |s|
    ensures forall k :: 0 <= k < n ==> !IsSpace(s[k])
    ensures n < |s| ==> IsSpace(s[n])
    decreases |s|
  {
    if |s| == 1 || IsSpace(s[1]) then 1 else 1 + RunLength(s[1..])
  }

  /** `split(/\s+/).filter(word => word.length > 0)`: the maximal runs of non-whitespace, in order. */
  function Words(s: string): (ws: seq<string>)
    ensures forall k :: 0 <= k < |ws| ==> IsWord(ws[k])
    decreases |s|
  {
    if |s| == 0 then []
    else if IsSpace(s[0]) then Words(s[1..])
    else
      var n := RunLength(s);
      [s[..n]] + Words(s[n..])
  }

  /** A word on its own is one word; whitespace alone is none. */
  lemma {:induction false} WordsOfWord(w: string)
    requires IsWord(w)
    ensures Words(w) == [w]
  {
    RunLengthOfWord(w, []);
    assert w + [] == w;
    assert w[|w|..] == [];
  }

  lemma {:induction false} RunLengthOfWord(w: string, rest: string)
    requires IsWord(w)
    requires |rest| > 0 ==> IsSpace(rest[0])
    ensures RunLength(w + rest) == |w|
    decreases |w|
  {
    if |w| > 1 {
      RunLengthOfWord(w[1..], rest);
      assert (w + rest)[1..] == w[1..] + rest;
    }
  }

  /**
   * A whitespace character separates: the words on either side of it are
   * counted apart, none is joined across it or lost.
   */
  lemma {:induction false} WordsSplitAtSpace(x: string, c: char, y: string)
    requires IsSpace(c)
    ensures Words(x + [c] + y) == Words(x) + Words(y)
    decreases |x|
  {
    var s := x + [c] + y;
    if |x| == 0 {
      assert s[1..] == y;
    } else if IsSpace(x[0]) {
      WordsSplitAtSpace(x[1..], c, y);
      assert s[1..] == x[1..] + [c] + y;
    } else {
      var n := RunLength(x);
      WordsSplitAtSpace(x[n..], c, y);
      WordsAfterLeadingWord(x, c, y);
    }
  }

  /** One step of `WordsSplitAtSpace`: the leading word of `x` is also the leading word of `x + [c] + y`. */
  lemma WordsAfterLeadingWord(x: string, c: char, y: string)
    requires IsSpace(c) && |x| > 0 && !IsSpace(x[0])
    ensures Words(x + [c] + y) == [x[..RunLength(x)]] + Words(x[RunLength(x)..] + [c] + y)
  {
    var s := x + [c] + y;
    var n := RunLength(x);
    RunLengthPrefix(x, [c] + y);
    assert s == x + ([c] + y);
    assert s[..n] == x[..n];
    assert s[n..] == x[n..] + [c] + y;
  }

  /** The leading word of `x + rest` is that of `x` when `rest` starts with whitespace or `x`'s word ends early. */
  lemma {:induction false} RunLengthPrefix(x: string, rest: string)
    requires |x| > 0 && !IsSpace(x[0])
    requires |rest| > 0 && IsSpace(rest[0])
    ensures RunLength(x + rest) == RunLength(x)
    decreases |x|
  {
    if |x| > 1 && !IsSpace(x[1]) {
      RunLengthPrefix(x[1..], rest);
      assert (x + rest)[1..] == x[1..] + rest;
    }
  }

  /** Words written out with one space between them. */
  function Unwords(ws: seq<string>): string
    decreases |ws|
  {
    if |ws| == 0 then ""
    else if |ws| == 1 then ws[0]
    else ws[0] + " " + Unwords(ws[1..])
  }

  /** Cutting words joined by spaces gives the words back. */
  lemma {:induction false} WordsOfUnwords(ws: seq<string>)
    requires forall k :: 0 <= k < |ws| ==> IsWord(ws[k])
    ensures Words(Unwords(ws)) == ws
    decreases |ws|
  {
    if |ws| == 1 {
      WordsOfWord(ws[0]);
    } else if |ws| > 1 {
      WordsOfUnwords(ws[1..]);
      WordsOfWord(ws[0]);
      WordsSplitAtSpace(ws[0], ' ', Unwords(ws[1..]));
      assert ws[0] + " " + Unwords(ws[1..]) == ws[0] + [' '] + Unwords(ws[1..]);
      assert [ws[0]] + ws[1..] == ws;
    }
  }

  /** Leading and trailing whitespace never changes the words, so trimming before the split is harmless. */
  lemma {:induction false} WordsIgnoreTrim(s: string)
    ensures Words(Trim(s)) == Words(s)
  {
    WordsIgnoreTrimEnd(s);
    WordsIgnoreTrimStart(TrimEnd(s));
  }

  lemma {:induction false} WordsIgnoreTrimStart(s: string)
    ensures Words(TrimStart(s)) == Words(s)
    decreases |s|
  {
    if |s| > 0 && IsSpace(s[0]) {
      WordsIgnoreTrimStart(s[1..]);
    }
  }

  lemma {:induction false} WordsIgnoreTrimEnd(s: string)
    ensures Words(TrimEnd(s)) == Words(s)
    decreases |s|
  {
    if |s| > 0 && IsSpace(s[|s| - 1]) {
      var init := s[..|s| - 1];
      WordsIgnoreTrimEnd(init);
      WordsSplitAtSpace(init, s[|s| - 1], []);
      assert init + [s[|s| - 1]] + [] == s;
    }
  }

  /** `Math.ceil(wordCount / 225)`. */
  function Minutes(words: nat): (m: nat)
    ensures m == 0 <==> words == 0
    ensures WordsPerMinute * m >= words
    ensures m > 0 ==> WordsPerMinute * (m - 1) < words
  {
    (words + WordsPerMinute - 1) / WordsPerMinute
  }

  /** More words never read faster. */
  lemma MinutesMonotone(v: nat, w: nat)
    requires v <= w
    ensures Minutes(v) <= Minutes(w)
  {
  }

  /** The ceiling is the only count that fits: `m` minutes exactly when `225 * (m - 1) < words <= 225 * m`. */
  lemma MinutesUnique(words: nat, m: nat)
    requires m > 0 && WordsPerMinute * (m - 1) < words <= WordsPerMinute * m
    ensures Minutes(words) == m
  {
  }

  lemma MinutesExamples()
    ensures Minutes(0) == 0
    ensures Minutes(1) == 1 && Minutes(225) == 1
    ensures Minutes(226) == 2 && Minutes(450) == 2 && Minutes(451) == 3
  {
  }

  const MinRead: string := " min read"

  /** The label: one minute is special-cased as "1 min read", every other count is printed in decimal. */
  function Label(minutes: nat): string {
    if minutes == 1 then "1" + MinRead else NatToString(minutes) + MinRead
  }

  /** The special case agrees with the general one, and the count can be read back off the label. */
  lemma LabelReadsBack(minutes: nat)
    ensures Label(minutes) == NatToString(minutes) + MinRead
    ensures DecimalValue(Label(minutes)[..|Label(minutes)| - |MinRead|]) == minutes
  {
    var l := Label(minutes);
    assert l[..|l| - |MinRead|] == NatToString(minutes);
    NatToStringRoundTrip(minutes);
  }

  /** The words counted in a text whose HTML, code and link syntax has already been removed. */
  function WordsOf(text: string): (ws: seq<string>)
    ensures forall k :: 0 <= k < |ws| ==> IsWord(ws[k])
  {
    Words(Trim(StripFormatting(text)))
  }

  /** `calculateReadingTime`, from the text left once the HTML tags, code and link syntax are removed. */
  function ReadingTime(text: string): string {
    Label(Minutes(|WordsOf(text)|))
  }

  /**
   * The label gives the number of minutes needed at 225 words a minute,
   * rounded up, for the words left after the formatting characters go.
   */
  lemma ReadingTimeSpec(text: string, m: nat)
    requires m > 0 && WordsPerMinute * (m - 1) < |Words(StripFormatting(text))| <= WordsPerMinute * m
    ensures ReadingTime(text) == NatToString(m) + MinRead
  {
    WordsIgnoreTrim(StripFormatting(text));
    MinutesUnique(|WordsOf(text)|, m);
    LabelReadsBack(m);
  }

  /** A text without words reads in "0 min read". */
  lemma NoWordsReadsInZero(text: string)
    requires Words(StripFormatting(text)) == []
    ensures ReadingTime(text) == "0" + MinRead
  {
    WordsIgnoreTrim(StripFormatting(text));
  }

  lemma ReadingTimeExamples()
    ensures ReadingTime("") == "0 min read"
    ensures ReadingTime(" ## ") == "0 min read"
  {
    assert StripFormatting(" ## ") == "  ";
  }

  /** Stripping one character, then the rest. */
  lemma StripCons(c: char, s: string)
    ensures StripFormatting([c] + s) == (if IsFormatting(c) then [] else [c]) + StripFormatting(s)
  {
    assert ([c] + s)[1..] == s;
  }

  lemma StripEmphasis()
    ensures StripFormatting("#a *b*") == "a" + [' '] + "b"
  {
    StripCons('*', "");
    StripCons('b', "*");
    StripCons('*', "b*");
    StripCons(' ', "*b*");
    StripCons('a', " *b*");
    StripCons('#', "a *b*");
  }

  /** Emphasis marks vanish from around a word. */
  lemma EmphasisExample()
    ensures WordsOf("#a *b*") == ["a", "b"]
  {
    var t := StripFormatting("#a *b*");
    StripEmphasis();
    WordsIgnoreTrim(t);
    WordsSplitAtSpace("a", ' ', "b");
    WordsOfWord("a");
    WordsOfWord("b");
  }

  lemma StripLoneMark()
    ensures StripFormatting("a ~ b") == "a" + [' '] + " b"
  {
    StripCons('b', "");
    StripCons(' ', "b");
    StripCons('~', " b");
    StripCons(' ', "~ b");
    StripCons('a', " ~ b");
  }

  /** A mark standing alone is no word. */
  lemma LoneMarkExample()
    ensures WordsOf("a ~ b") == ["a", "b"]
  {
    var t := StripFormatting("a ~ b");
    StripLoneMark();
    WordsIgnoreTrim(t);
    WordsSplitAtSpace("a", ' ', " b");
    assert Words(" b") == Words("b");
    WordsOfWord("a");
    WordsOfWord("b");
  }
}
