/**
 * The line bookkeeping around the syntax highlighter: the source text and the
 * highlighter's output are each split into lines (one trailing empty line
 * dropped) and zipped, falling back to the raw line where the highlighter's
 * line is missing or empty. The highlighter itself is a parameter: its output
 * string, or `None` when it throws.
 */
module SyntaxHighlight {
  import opened Wrappers
  import opened Text

  datatype HighlightedLine = HighlightedLine(content: string, number: nat, highlighted: string)

  /** `code.split('\n')`, minus the last element when that element is empty. */
  function SourceLines(code: string): (lines: seq<string>)
    ensures forall k :: 0 <= k < |lines| ==> '\n' !in lines[k]
  {
    var parts := Split(code, '\n');
    if parts[|parts| - 1] == "" then parts[..|parts| - 1] else parts
  }

  /**
   * The lines determine the text up to one optional final newline: joining
   * them gives the text back, with the dropped empty line restored when the
   * text is empty or ends in a newline.
   */
  lemma SourceLinesRoundTrip(code: string)
    ensures code == "" || code[|code| - 1] == '\n' ==> Join(SourceLines(code) + [""], '\n') == code
    ensures code != "" && code[|code| - 1] != '\n' ==> |SourceLines(code)| >= 1 && Join(SourceLines(code), '\n') == code
  {
    LastPartEmptyMeansNewline(code);
    JoinSplit(code, '\n');
    SourceLinesOfParts(code);
  }

  /** The lines are the parts of the split, with an empty last part put aside. */
  lemma SourceLinesOfParts(code: string)
    ensures var parts := Split(code, '\n');
      if parts[|parts| - 1] == "" then SourceLines(code) + [""] == parts else SourceLines(code) == parts
  {
    DropLastRestores(Split(code, '\n'));
  }

  lemma DropLastRestores(parts: seq<string>)
    requires |parts| >= 1
    ensures parts[..|parts| - 1] + [parts[|parts| - 1]] == parts
  {
  }

  /** The last part of a split is empty exactly when the text is empty or ends with the separator. */
  lemma {:induction false} LastPartEmptyMeansNewline(code: string)
    ensures var parts := Split(code, '\n');
      parts[|parts| - 1] == "" <==> (code == "" || code[|code| - 1] == '\n')
    decreases |code|
  {
    if |code| > 0 {
      LastPartEmptyMeansNewline(code[1..]);
      var rest := Split(code[1..], '\n');
      if |code| == 1 {
        assert code[1..] == "";
      } else {
        assert code[1..][|code[1..]| - 1] == code[|code| - 1];
      }
    }
  }

  lemma SourceLinesExamples()
    ensures SourceLines("") == []
    ensures SourceLines("a\n") == ["a"]
    ensures SourceLines("a\nb") == ["a", "b"]
  {
    assert Split("", '\n') == [""];
    SplitAtFirstSep("a", '\n', "");
    assert "a" + ['\n'] + "" == "a\n";
    SplitAtFirstSep("a", '\n', "b");
    SplitNoSep("b", '\n');
    assert "a" + ['\n'] + "b" == "a\nb";
  }

  /** The highlighted form of line `i`: the highlighter's line when present and non-empty, else the raw line. */
  function PickHighlighted(raw: string, output: seq<string>, i: nat): string {
    if i < |output| && output[i] != "" then output[i] else raw
  }

  /**
   * `highlightCode(code, language)` with the highlighter's result given:
   * one entry per source line whatever the highlighter returned, numbered
   * from 1, carrying the raw line and its highlighted form.
   */
  function HighlightCode(code: string, highlighter: Option<string>): (r: seq<HighlightedLine>)
    ensures |r| == |SourceLines(code)|
    ensures forall i :: 0 <= i < |r| ==> r[i].number == i + 1 && r[i].content == SourceLines(code)[i]
  {
    var lines := SourceLines(code);
    var output := SourceLines(highlighter.GetOr(code));
    seq(|lines|, i requires 0 <= i < |lines| =>
      HighlightedLine(lines[i], i + 1, PickHighlighted(lines[i], output, i)))
  }

  /**
   * Each highlighted form is the highlighter's line, or the raw line where
   * that is missing or empty; a highlighter that hands the code back
   * unchanged leaves every line as it is.
   */
  lemma HighlightedFallback(code: string, out: string, i: nat)
    requires i < |SourceLines(code)|
    ensures var hl := SourceLines(out);
      HighlightCode(code, Some(out))[i].highlighted ==
        if i < |hl| && hl[i] != "" then hl[i] else SourceLines(code)[i]
    ensures HighlightCode(code, Some(code))[i].highlighted == HighlightCode(code, Some(code))[i].content
  {
  }

  /** When the highlighter throws, every line is shown as its raw text. */
  lemma HighlightFailureIsPlain(code: string)
    ensures forall i :: 0 <= i < |HighlightCode(code, None)| ==>
      HighlightCode(code, None)[i].highlighted == HighlightCode(code, None)[i].content
  {
  }

  /** The highlighter names the component shows, by lower-cased alias. */
  function KnownLanguage(key: string): Option<string> {
    if key == "js" || key == "jsx" || key == "javascript" then Some("JavaScript")
    else if key == "ts" || key == "tsx" || key == "typescript" then Some("TypeScript")
    else if key == "css" then Some("CSS")
    else if key == "scss" then Some("SCSS")
    else if key == "sass" then Some("Sass")
    else if key == "json" then Some("JSON")
    else if key == "html" then Some("HTML")
    else if key == "xml" then Some("XML")
    else if key == "md" || key == "markdown" then Some("Markdown")
    else if key == "mdx" then Some("MDX")
    else if key == "bash" then Some("Bash")
    else if key == "sh" || key == "shell" then Some("Shell")
    else if key == "python" || key == "py" then Some("Python")
    else if key == "rust" || key == "rs" then Some("Rust")
    else if key == "go" then Some("Go")
    else if key == "java" then Some("Java")
    else None
  }

  /** `getLanguageDisplayName`: the table entry for the lower-cased name, else the name upper-cased. */
  function LanguageDisplayName(language: string): string {
    match KnownLanguage(ToLower(language))
    case Some(name) => name
    case None => ToUpper(language)
  }

  /** A name with no upper-case ASCII letter is its own lower-case form. */
  lemma ToLowerOfLower(s: string)
    requires forall k :: 0 <= k < |s| ==> !IsAsciiUpper(s[k])
    ensures ToLower(s) == s
  {
  }

  /** The lookup ignores ASCII case, for known and unknown names alike. */
  lemma LanguageDisplayNameIgnoresCase(s: string, t: string)
    requires ToLower(s) == ToLower(t)
    ensures LanguageDisplayName(s) == LanguageDisplayName(t)
  {
    ToLowerEqToUpperEq(s, t);
  }

  /** A name outside the table is shown upper-cased. */
  lemma UnknownLanguageUpperCased(language: string)
    requires KnownLanguage(ToLower(language)).None?
    ensures LanguageDisplayName(language) == ToUpper(language)
  {
  }

  /** The aliases of one language share one display name, whatever their case. */
  lemma JavaScriptAliases()
    ensures LanguageDisplayName("js") == "JavaScript"
    ensures LanguageDisplayName("jsx") == "JavaScript"
    ensures LanguageDisplayName("javascript") == "JavaScript"
    ensures LanguageDisplayName("JSX") == "JavaScript"
  {
    ToLowerOfLower("js");
    ToLowerOfLower("jsx");
    ToLowerOfLower("javascript");
    LanguageDisplayNameIgnoresCase("JSX", "jsx");
  }

  lemma ShellAliases()
    ensures LanguageDisplayName("sh") == "Shell"
    ensures LanguageDisplayName("shell") == "Shell"
  {
    ToLowerOfLower("sh");
    ToLowerOfLower("shell");
  }
}
