# Text to Markdown conversion, modelled in Dafny

This project models `analyze_and_convert_text`, the function of the file
converter that rewrites plain text as Markdown (main.py:86-168). The PDF,
DOCX and TXT front ends pass every page, paragraph or line they extract to
this function, and the function does the following:

1. It splits the text into paragraphs on `"\n\n"`, and each paragraph into
   lines on `"\n"`.
2. It strips every line. A line that is then empty becomes an empty entry.
3. Any other line goes through a chain of regular expressions. The first
   rule that fires decides the line's Markdown form. The rules, in order:
   - fenced code block;
   - heading of level 1 to 6;
   - numbered list item;
   - bulleted list item;
   - quote;
   - link;
   - three emphasis substitutions;
   - horizontal rule;
   - "table" line between `...` markers;
   - plain text.
4. It closes every paragraph with an empty entry.
5. It joins all entries with line feeds and strips the result.

The project has four modules:

- `Strings` (strings.dfy) holds Python's `str.strip`, `str.lstrip`,
  `str.split` and `str.join`, with their properties. `split` cuts at the
  leftmost occurrence of the separator and never lets two cuts overlap.
  Joining the pieces gives the text back. Splitting a join gives the pieces
  back when no separator occurs in a piece or across a piece's end: for the
  separator `"\n\n"`, the pieces `"a\n"` and `"b"` join to `"a\n\n\nb"`,
  which splits into `"a"` and `"\nb"`.
- `LineRules` (line_rules.dfy) hand-codes each pattern as a matcher that
  returns the captured groups. It also holds `ClassifyLine`, which runs the
  chain in the source's order, and the lemmas that say which Markdown line
  each kind of input line produces.
- `Converter` (converter.dfy) holds two things:
  - the two nested loops as imperative methods, `AppendParagraph` for the
    inner loop over lines and `AnalyzeAndConvertText` for the outer loop
    over paragraphs;
  - the functions that specify those loops, with lemmas on blank lines,
    indentation, idempotence and layout.
- `Canonical` (canonical.dfy) is about canonical Markdown: paragraphs of
  lines that the chain leaves alone, separated by blank lines. It proves
  that the converter gives such text back unchanged.

Whitespace is what Python's `str.isspace` accepts among ASCII codes: 9-13
and 28-32. The same set is used for `\s`. `\d` is `0`-`9`.

Four behaviours of the code may surprise a reader of its comments. The model
follows the code, and a lemma states each one:

- **Indentation is never kept.** Every line is stripped (main.py:92) before
  the plain-text rule measures its indent (main.py:164). That indent is
  therefore always zero. `PlainTextStripped` and `IndentationDropped` prove
  this.
- **The code-block rule can never fire.** Its pattern (main.py:98) needs a
  line feed inside the line. Lines come from `split('\n')`, so they contain
  none. `FenceUnreachable` proves this.
- **Links are recognised only at the start of a line.** `re.match` anchors
  the pattern there. Whatever follows the closing parenthesis is dropped
  from the output (main.py:140-144). For a link later in the line the link
  rule does not fire, so the rules after it decide. A plain line such as
  `see [docs](http://x)` is then left as it is. See `LinkLine` and
  `LinkLaterExample`.
- **The emphasis passes change nothing.** Each `re.sub` writes back exactly
  what it matched (main.py:148-150). See `Emphasis`.
- **The quote rule's `strip()` changes nothing.** The line was already
  stripped, and `\s+` has consumed the whitespace in front of the content
  (main.py:133-136). See `QuoteLine`. The heading rule's `strip()` does
  matter. Its pattern consumes exactly one space after the hashes, and any
  further whitespace is removed by the strip (main.py:108-113). For example
  `#   Title` becomes `# Title`. See `HeadingSpaces`.

## Model

| member | source | states |
|---|---|---|
| Strings.Strip | main.py:92 | the result is no longer than the input and has no whitespace at either end |
| Strings.LStrip | main.py:164 | `lstrip()` is no longer than its input; `LStripSpec` says which suffix it leaves |
| Strings.StripSpec | main.py:92 | the result of `strip()` is a slice of the line with only whitespace before it and only whitespace after it |
| Strings.LStripSpec | main.py:164 | `lstrip()` leaves a suffix with only whitespace before it and no whitespace at its start |
| Strings.StripStripped | main.py:113 | stripping text with no whitespace at either end leaves it unchanged |
| Strings.StripSpacePrefix | main.py:92 | whitespace in front of a line does not change what `strip()` returns |
| Strings.StripKeepsChar | main.py:92 | stripping never introduces a character, such as a line feed, that was absent |
| Strings.Repeat | main.py:113 | `"#" * level` and `" " * indent`: `n` copies of the character |
| Strings.Find | main.py:88-90 | the leftmost place where the separator occurs, and none when it occurs nowhere |
| Strings.Split | main.py:88-90 | `split` always yields at least one piece |
| Strings.SplitJoin | main.py:88-90 | joining the pieces of `split(sep)` with `sep` gives the text back |
| Strings.SplitPieces | main.py:88-90 | no piece of `split(sep)` contains `sep` |
| Strings.SplitJoinInverse | main.py:88-90 | splitting a join of pieces that hold no separator, even across a piece's end, gives the pieces back |
| Strings.SplitLinesNewlineFree | main.py:90 | no line of `paragraph.split('\n')` contains a line feed |
| Strings.Join | main.py:168 | `'\n'.join`: the pieces with one separator between neighbours; `SplitJoin`, `JoinCons`, `JoinAppend`, `JoinFirst` and `JoinLast` state its properties |
| Strings.JoinAppend | main.py:168 | joining two non-empty lists is joining each and putting one separator between them |
| Strings.StripFinalNewline | main.py:168 | the final `strip()` removes a trailing line feed after stripped text |
| LineRules.Span | main.py:108-140 | a greedy character-class run stops at the first character outside the class |
| LineRules.SpanAll | main.py:108-140 | every character in a greedy run belongs to the class |
| LineRules.FenceMatch | main.py:98-103 | a match splits the line into opening indent, language, content and closing indent, each indent at most three spaces, and the line is exactly the text rebuilt from them |
| LineRules.FenceRule | main.py:98-105 | the code-block rule emits the matched text rebuilt from its four groups; `FenceUnreachable` shows it never fires on a line of the loop |
| LineRules.FenceUnreachable | main.py:98-105 | a line without a line feed never matches the code-block pattern |
| LineRules.HeadingMatch | main.py:108-111 | a match means the line is one or more `#`, a space, then the content |
| LineRules.HeadingMatchOf | main.py:108-111 | every line of that shape matches, with that level and that content |
| LineRules.HeadingLine | main.py:108-114 | a heading of level 1 to 6 becomes its hashes, a space and its stripped content |
| LineRules.HeadingSpaces | main.py:108-113 | whitespace after the single space that follows the hashes is removed: the heading comes out with one space before its content |
| LineRules.HeadingSpacesExample | main.py:108-113 | `#   Title` becomes `# Title` |
| LineRules.HeadingTooDeep | main.py:108-114 | seven or more hashes do not make a heading; the line passes through unchanged |
| LineRules.OrderedMatch | main.py:117-120 | a match means digits, a dot, a non-empty whitespace run and a content that starts with no whitespace |
| LineRules.OrderedMatchOf | main.py:117-120 | every line of that shape matches with those groups |
| LineRules.OrderedLine | main.py:117-122 | a numbered item becomes its number, `. ` and its content: the whitespace after the dot collapses to one space |
| LineRules.UnorderedMatch | main.py:125-128 | a match means a `*`, `+` or `-`, a non-empty whitespace run, then the content |
| LineRules.UnorderedMatchOf | main.py:125-128 | every line of that shape matches with those groups |
| LineRules.UnorderedLine | main.py:125-130 | a bulleted item becomes its marker, one space and its content |
| LineRules.QuoteMatch | main.py:133-135 | a match means `>`, a non-empty whitespace run, then the content |
| LineRules.QuoteMatchOf | main.py:133-135 | every line of that shape matches with that content |
| LineRules.QuoteLine | main.py:133-137 | a quote becomes `> ` and its content |
| LineRules.LinkUrl | main.py:140 | `([^)]+)\)`: the url is non-empty, holds no `)` and is followed by one |
| LineRules.LinkBody | main.py:140 | `([^\]]+)\]\(` then the url: the text is non-empty, holds no `]` and is followed by `](` |
| LineRules.LinkMatch | main.py:140-143 | a match means the line starts with `[text](url)`, with a non-empty text free of `]` and a non-empty url free of `)` |
| LineRules.LinkMatchOf | main.py:140-143 | every line that starts with such a link matches, whatever follows it |
| LineRules.LinkLine | main.py:140-145 | a line that starts with a link becomes that link alone; the rest of the line is dropped |
| LineRules.LinkLaterExample | main.py:140-165 | `see [docs](http://x)` is not a link line and comes out unchanged |
| LineRules.SubstituteDelimited | main.py:148-150 | one substitution `d(.*?)d` to `d\1d` leaves the line unchanged |
| LineRules.Emphasis | main.py:148-150 | the three emphasis passes together leave the line unchanged |
| LineRules.HeadingRule | main.py:108-114 | when the heading rule fires, the line and its output both start with `#` |
| LineRules.OrderedRule | main.py:117-122 | when the numbered-list rule fires, the line and its output both start with a digit |
| LineRules.UnorderedRule | main.py:125-130 | when the bulleted-list rule fires, the line starts with a marker and whitespace, and the output has a space in second place |
| LineRules.QuoteRule | main.py:133-137 | when the quote rule fires, the line and its output both start with `>` |
| LineRules.LinkRule | main.py:140-145 | when the link rule fires, the line and its output both start with `[` |
| LineRules.IsRuleLine | main.py:153 | `^[-*_]{3,}$`: three or more characters, each `-`, `*` or `_`; `HorizontalRule` ties it to the `---` output |
| LineRules.IsTableLine | main.py:159 | `^\.\.\.(.*?)\.\.\.$`: at least six characters, starting with `...` and ending with `...`, the two markers not overlapping; `TableLine` gives its output |
| LineRules.PlainText | main.py:163-165 | the measured indent in spaces followed by the stripped line; `PlainTextStripped` shows it is the line itself on a stripped line |
| LineRules.PlainTextStripped | main.py:164-165 | on a stripped line the measured indent is zero, and the plain-text rule returns the line itself |
| LineRules.ClassifyLine | main.py:97-165 | the rule chain: the first rule that fires, in the source's order, gives the line; the `Chain*` lemmas, `ChainTail`, `ClassifyLineIsLine`, `HorizontalRule` and `ClassifyIdempotent` state what it returns |
| LineRules.ChainHeading | main.py:97-114 | a line the heading rule takes gets the heading rule's output |
| LineRules.ChainOrdered | main.py:97-122 | a line the numbered-list rule takes gets that rule's output |
| LineRules.ChainUnordered | main.py:97-130 | a line the bulleted-list rule takes gets that rule's output |
| LineRules.ChainQuote | main.py:97-137 | a line the quote rule takes gets that rule's output |
| LineRules.ChainLink | main.py:97-145 | a line the link rule takes gets that rule's output |
| LineRules.ChainTail | main.py:147-165 | a line no earlier rule takes becomes `---` when it is a rule line, and is returned unchanged otherwise |
| LineRules.Fallback | main.py:158-165 | a line no rule takes is returned unchanged |
| LineRules.PlainLine | main.py:163-165 | a line that starts with none of the rules' leading characters and is not a rule line comes out unchanged |
| LineRules.TableLine | main.py:158-161 | a line that starts and ends with `...` comes out unchanged |
| LineRules.HorizontalRule | main.py:152-156 | the output is `---` if and only if the line is three or more of `-`, `*` and `_` |
| LineRules.DashesStable | main.py:152-156 | `---` converts to itself |
| LineRules.ClassifyLineIsLine | main.py:97-165 | every output line is non-empty, stripped and free of line feeds, so the chain could be given it again |
| LineRules.ClassifyIdempotent | main.py:97-165 | converting an output line again gives the same line |
| LineRules.OrderedExample | main.py:117-122 | `3.   hello` becomes `3. hello` |
| LineRules.HeadingBoundExample | main.py:108-114 | `####### text` comes out unchanged |
| LineRules.RuleExample | main.py:152-156 | `-*_` becomes `---` |
| LineRules.EmphasisExample | main.py:147-165 | `Some *text* here.` comes out unchanged |
| Converter.ConvertLine | main.py:92-165 | one line stripped, then empty or classified; `BlankLine`, `IndentationDropped` and `ConvertLineIdempotent` state its properties |
| Converter.ConvertLines | main.py:90-165 | a paragraph yields one entry per line |
| Converter.ConvertLinesAt | main.py:90-165 | entry k of a paragraph's entries is line k converted |
| Converter.ParagraphBlock | main.py:90-166 | what one paragraph appends; `ParagraphBlockShape` gives its entries and `AppendParagraph` is proved to append it |
| Converter.ParagraphBlockShape | main.py:90-166 | a paragraph contributes one converted entry per line, in order, then one empty entry |
| Converter.AppendParagraph | main.py:90-166 | the inner loop appends exactly the paragraph's block to `markdown_lines` |
| Converter.AnalyzeAndConvertText | main.py:86-168 | the method returns the joined, stripped entries of every paragraph's block, and the result has no whitespace at either end |
| Converter.MarkdownLines | main.py:86-166 | `markdown_lines` after both loops: the paragraphs' blocks in order; `ParagraphLayout` and `BlocksLength` state its layout and length |
| Converter.ConvertText | main.py:86-168 | the returned value: the entries joined with line feeds and stripped; `AnalyzeAndConvertText` computes it and `CanonicalFixedPoint` shows canonical text is its fixed point |
| Converter.BlankLine | main.py:92-95 | a line yields the empty entry if and only if it is empty or all whitespace |
| Converter.IndentationDropped | main.py:92-165 | whitespace in front of a line never changes its entry |
| Converter.ConvertLineIdempotent | main.py:92-165 | converting a line's entry again gives the same entry |
| Converter.Map | main.py:89 | the loop over paragraphs yields one block per paragraph |
| Converter.ConcatAppend | main.py:89-166 | the entries of two runs of paragraphs are the entries of the first run followed by those of the second |
| Converter.ParagraphLayout | main.py:89-166 | paragraph i's entries sit between those of the paragraphs before it and those after it |
| Converter.BlocksLength | main.py:88-166 | `markdown_lines` has one entry per line of every paragraph plus one per paragraph |
| Canonical.CanonicalLines | main.py:90-165 | each line of a canonical paragraph converts to itself |
| Canonical.CanonicalBlock | main.py:90-166 | a canonical paragraph contributes its own lines and then the empty entry |
| Canonical.CanonicalSplit | main.py:88 | the text of a canonical document splits back into its paragraphs |
| Canonical.JoinBlocked | main.py:166-168 | joining a document's entries gives its text plus the one line feed the last separator leaves |
| Canonical.DocumentStripped | main.py:168 | canonical text has no whitespace at either end, so the final strip removes only that last line feed |
| Canonical.CanonicalFixedPoint | main.py:86-168 | converting canonical Markdown gives it back unchanged |
| Canonical.ParagraphRoundTrip | main.py:86-168 | `a`, a blank line, `b` comes back unchanged |
| Canonical.TitleLine | main.py:108-114 | `# Title` converts to itself |
| Canonical.ItemLine | main.py:125-130 | `- ` followed by content that starts with no whitespace converts to itself |
| Canonical.HeadedParagraph | main.py:86-168 | a one-line paragraph followed by a three-line paragraph of canonical lines comes back unchanged |
| Canonical.EndToEnd | main.py:86-168 | a heading, a blank line, then a plain line and two list items comes back unchanged |

## Left out

- The Swin image model and image embeddings (main.py:19-44) are not modelled. They load a neural network and read images.
- `markdown_to_image` (main.py:47-83) is not modelled. It renders through external libraries and writes files.
- `pdf_to_markdown`, `docx_to_markdown` and `txt_to_markdown` (main.py:171-229) are not modelled. They read files, call the function modelled here, then write its result.
- The Tk user interface (main.py:232-288) is not modelled.
- Python's regular-expression engine is not modelled. Each of the eleven patterns is a hand-written matcher that returns the groups the engine would capture.
- Unicode is not modelled. Whitespace and digits beyond ASCII (for example U+00A0 or Arabic-Indic digits) count as whitespace and `\d` in Python, but not in this model.
- LineRules.FenceMatch: the split of a match into the language and content groups follows one reading of the engine's backtracking. The only fact used is that any match needs a line feed, which holds for every split.
- LineRules.ClassifyLine: requires a non-empty, stripped line free of line feeds. That is every line the loop passes to the rule chain.
- LineRules.SubstituteDelimited: scans for the closing delimiter on one line only. The lines it is given hold no line feed, so the `.` of `(.*?)` matches every character on them.
