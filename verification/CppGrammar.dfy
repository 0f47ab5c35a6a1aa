/**
 * Preprocessor lines as text, for config/check_spidermonkey_style.py: which lines open, continue and end a block, and
 * which include a file. White space and word characters appear by their codes.
 */
module CppGrammar {
  /** By character code: tab to carriage return, the ASCII separators, and the space. */
  predicate Blank(c: char) {
    var code := c as int;
    9 <= code <= 13 || 28 <= code <= 32
  }

  /** By character code: digits, capitals, the underscore, and small letters. */
  predicate WordCharacter(c: char) {
    var code := c as int;
    48 <= code <= 57 || 65 <= code <= 90 || code == 95 || 97 <= code <= 122
  }

  ghost predicate AllBlank(s: string) {
    forall i :: 0 <= i < |s| ==> Blank(s[i])
  }

  ghost predicate AllWord(s: string) {
    forall i :: 0 <= i < |s| ==> WordCharacter(s[i])
  }

  /** White space, a #, white space, the word, and no more of the word. */
  ghost predicate DirectiveParts(line: string, a: string, b: string, word: string, rest: string) {
    && line == a + "#" + b + word + rest && AllBlank(a) && AllBlank(b)
    && AllWord(word) && (rest != "" ==> !WordCharacter(rest[0]))
  }

  /** The word after the # of a line that begins with one. */
  ghost predicate HasDirective(line: string, words: set<string>) {
    exists a, b, word, rest :: DirectiveParts(line, a, b, word, rest) && word in words
  }

  ghost predicate Opens(line: string) {
    HasDirective(line, {"if", "ifdef", "ifndef"})
  }

  ghost predicate Turns(line: string) {
    HasDirective(line, {"elif", "else"})
  }

  ghost predicate Ends(line: string) {
    HasDirective(line, {"endif"})
  }

  /** What comes before the name in an #include line. */
  ghost predicate IncludePrefix(prefix: string, a: string, b: string, c: string) {
    prefix == a + "#" + b + "include" + c && AllBlank(a) && AllBlank(b) && AllBlank(c) && c != ""
  }

  /** What . in a regular expression stops at. */
  ghost predicate LineEnd(end: string) {
    end != "" ==> end[0] == '\n'
  }

  function QuotedText(name: string, isSystem: bool): string {
    if isSystem then "<" + name + ">" else "\"" + name + "\""
  }

  /** An #include line with these parts; what follows the name belongs to it up to the end of the line. */
  ghost predicate IncludeParts(line: string, prefix: string, name: string, suffix: string, isSystem: bool) {
    && (exists a, b, c :: IncludePrefix(prefix, a, b, c))
    && (if isSystem then '>' !in name else '"' !in name) && '\n' !in suffix
    && (exists end :: LineEnd(end) && line == prefix + QuotedText(name, isSystem) + suffix + end)
  }

  ghost predicate IsInclude(line: string) {
    exists prefix, name, suffix, isSystem :: IncludeParts(line, prefix, name, suffix, isSystem)
  }

  /** Inside `depth` blocks, the lines end each block they are in or open, and no other. */
  ghost predicate Nested(lines: seq<string>, depth: nat) {
    if lines == [] then depth == 0
    else if Opens(lines[0]) then Nested(lines[1..], depth + 1)
    else if Turns(lines[0]) then depth > 0 && Nested(lines[1..], depth)
    else if Ends(lines[0]) then depth > 0 && Nested(lines[1..], depth - 1)
    else Nested(lines[1..], depth)
  }
}
