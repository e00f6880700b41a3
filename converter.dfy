/** `analyze_and_convert_text` (main.py:86-168): split the text into
    paragraphs on a blank line and each paragraph into lines, classify every
    stripped line, close every paragraph with an empty line, then join with
    line feeds and strip the result. */
module Converter {
  import opened Strings
  import opened LineRules

  predicate NewlineFree(ls: seq<string>) {
    forall k :: 0 <= k < |ls| ==> '\n' !in ls[k]
  }

  /** One line of a paragraph (main.py:92-165): stripped first; a line that
      is then empty comes out empty and no rule is consulted. */
  function ConvertLine(raw: string): string
    requires '\n' !in raw
  {
    StripKeepsChar(raw, '\n');
    var line := Strip(raw);
    if line == [] then "" else ClassifyLine(line)
  }

  /** The converted lines of a paragraph, in order. */
  function ConvertLines(ls: seq<string>): (r: seq<string>)
    requires NewlineFree(ls)
    ensures |r| == |ls|
  {
    if ls == [] then [] else ConvertLines(ls[..|ls| - 1]) + [ConvertLine(ls[|ls| - 1])]
  }

  /** Entry k of the converted lines is line k converted. */
  lemma {:induction false} ConvertLinesAt(ls: seq<string>, k: nat)
    requires NewlineFree(ls) && k < |ls|
    ensures ConvertLines(ls)[k] == ConvertLine(ls[k])
  {
    if k < |ls| - 1 {
      ConvertLinesAt(ls[..|ls| - 1], k);
    }
  }

  /** What one paragraph appends: one entry per line, then the empty
      separator (main.py:90-166). */
  function ParagraphBlock(p: string): seq<string> {
    SplitLinesNewlineFree(p);
    ConvertLines(Split(p, "\n")) + [""]
  }

  /** The entries of one paragraph's block. */
  lemma ParagraphBlockShape(p: string)
    ensures var ls := Split(p, "\n"); var r := ParagraphBlock(p);
      |r| == |ls| + 1 && r[|ls|] == "" &&
      forall k :: 0 <= k < |ls| ==> '\n' !in ls[k] && r[k] == ConvertLine(ls[k])
  {
    var ls := Split(p, "\n");
    SplitLinesNewlineFree(p);
    forall k | 0 <= k < |ls| ensures ParagraphBlock(p)[k] == ConvertLine(ls[k]) {
      ConvertLinesAt(ls, k);
    }
  }

  /** `f` applied to every element, in order. */
  function Map<A, B>(f: A -> B, xs: seq<A>): (r: seq<B>)
    ensures |r| == |xs|
  {
    if xs == [] then [] else Map(f, xs[..|xs| - 1]) + [f(xs[|xs| - 1])]
  }

  lemma {:induction false} MapAt<A, B>(f: A -> B, xs: seq<A>, k: nat)
    requires k < |xs|
    ensures Map(f, xs)[k] == f(xs[k])
  {
    if k < |xs| - 1 {
      MapAt(f, xs[..|xs| - 1], k);
    }
  }

  lemma MapPrefix<A, B>(f: A -> B, xs: seq<A>, n: nat)
    requires n <= |xs|
    ensures Map(f, xs[..n]) == Map(f, xs)[..n]
  {
    var l, r := Map(f, xs[..n]), Map(f, xs)[..n];
    forall k | 0 <= k < n ensures l[k] == r[k] {
      MapAt(f, xs[..n], k);
      MapAt(f, xs, k);
    }
    assert l == r;
  }

  lemma {:induction false} MapSuffix<A, B>(f: A -> B, xs: seq<A>, n: nat)
    requires n <= |xs|
    ensures Map(f, xs[n..]) == Map(f, xs)[n..]
    decreases |xs|
  {
    if n < |xs| {
      var m := |xs| - 1;
      var front := xs[..m];
      assert xs[n..][..m - n] == front[n..];
      MapSuffix(f, front, n);
      assert Map(f, xs) == Map(f, front) + [f(xs[m])];
      assert Map(f, xs)[n..] == Map(f, front)[n..] + [f(xs[m])];
    }
  }

  /** Every paragraph's block, in order. */
  function ParagraphBlocks(ps: seq<string>): seq<seq<string>> {
    Map(ParagraphBlock, ps)
  }

  /** The blocks one after the other, as `markdown_lines` receives them. */
  function Concat(bs: seq<seq<string>>): seq<string> {
    if bs == [] then [] else Concat(bs[..|bs| - 1]) + bs[|bs| - 1]
  }

  /** The list `markdown_lines` holds when the loops are done. */
  function MarkdownLines(text: string): seq<string> {
    Concat(ParagraphBlocks(Split(text, "\n\n")))
  }

  /** The value `analyze_and_convert_text` returns. */
  function ConvertText(text: string): string {
    Strip(Join(MarkdownLines(text), "\n"))
  }

  lemma ConvertLinesSnoc(ls: seq<string>, j: nat)
    requires NewlineFree(ls) && j < |ls|
    ensures ConvertLines(ls[..j + 1]) == ConvertLines(ls[..j]) + [ConvertLine(ls[j])]
  {
    assert ls[..j + 1][..j] == ls[..j];
  }

  lemma ConcatSnoc(bs: seq<seq<string>>, i: nat)
    requires i < |bs|
    ensures Concat(bs[..i + 1]) == Concat(bs[..i]) + bs[i]
  {
    assert bs[..i + 1][..i] == bs[..i];
  }

  /** The inner loop (main.py:90-166): each line of the paragraph,
      stripped and converted, then the empty separator. */
  method AppendParagraph(markdownLines: seq<string>, paragraph: string) returns (out: seq<string>)
    ensures out == markdownLines + ParagraphBlock(paragraph)
  {
    out := markdownLines;
    var lines := Split(paragraph, "\n");
    SplitLinesNewlineFree(paragraph);
    for j := 0 to |lines|
      invariant out == markdownLines + ConvertLines(lines[..j])
    {
      StripKeepsChar(lines[j], '\n');
      var line := Strip(lines[j]);
      if line == [] {
        out := out + [""];
      } else {
        out := out + [ClassifyLine(line)];
      }
      ConvertLinesSnoc(lines, j);
    }
    assert lines[..|lines|] == lines;
    out := out + [""];
  }

  /** The outer loop over the paragraphs, then the join and the final
      strip (main.py:86-168). */
  method AnalyzeAndConvertText(text: string) returns (result: string)
    ensures result == ConvertText(text)
    ensures IsStripped(result)
  {
    var markdownLines: seq<string> := [];
    var paragraphs := Split(text, "\n\n");
    ghost var blocks := ParagraphBlocks(paragraphs);
    for i := 0 to |paragraphs|
      invariant markdownLines == Concat(blocks[..i])
    {
      markdownLines := AppendParagraph(markdownLines, paragraphs[i]);
      MapAt(ParagraphBlock, paragraphs, i);
      ConcatSnoc(blocks, i);
    }
    assert blocks[..|paragraphs|] == blocks;
    result := Strip(Join(markdownLines, "\n"));
  }

  // ---------------------------------------------------------------------
  // Properties

  /** A line that is empty or only whitespace contributes exactly "", and
      only such a line does. */
  lemma BlankLine(raw: string)
    requires '\n' !in raw
    ensures ConvertLine(raw) == "" <==> AllSpace(raw)
  {
    StripKeepsChar(raw, '\n');
    StripSpec(raw);
    LStripSpec(raw);
    var line := Strip(raw);
    if line != [] {
      ClassifyLineIsLine(line);
      var i := |raw| - |LStrip(raw)|;
      assert !IsSpace(raw[i]);
    } else {
      var i := |raw| - |LStrip(raw)|;
      assert raw == raw[..i] + raw[i..];
    }
  }

  /** Leading whitespace of a line never reaches the output: the source
      strips before it measures any indent. */
  lemma IndentationDropped(w: string, raw: string)
    requires AllSpace(w) && '\n' !in w + raw
    ensures '\n' !in raw && ConvertLine(w + raw) == ConvertLine(raw)
  {
    assert raw == (w + raw)[|w|..];
    StripSpacePrefix(w, raw);
  }

  /** Converting a converted line again changes nothing. */
  lemma ConvertLineIdempotent(raw: string)
    requires '\n' !in raw
    ensures '\n' !in ConvertLine(raw) && ConvertLine(ConvertLine(raw)) == ConvertLine(raw)
  {
    StripKeepsChar(raw, '\n');
    var line := Strip(raw);
    if line != [] {
      ClassifyIdempotent(line);
      StripStripped(ClassifyLine(line));
    }
  }

  lemma {:induction false} ConcatAppend(a: seq<seq<string>>, b: seq<seq<string>>)
    ensures Concat(a + b) == Concat(a) + Concat(b)
    decreases |b|
  {
    if b == [] {
      assert a + b == a;
    } else {
      var b' := b[..|b| - 1];
      assert (a + b)[..|a + b| - 1] == a + b';
      ConcatAppend(a, b');
    }
  }

  lemma ConcatLayout(bs: seq<seq<string>>, i: nat)
    requires i < |bs|
    ensures Concat(bs) == Concat(bs[..i]) + bs[i] + Concat(bs[i + 1..])
  {
    assert bs == bs[..i + 1] + bs[i + 1..];
    ConcatAppend(bs[..i + 1], bs[i + 1..]);
    ConcatSnoc(bs, i);
  }

  /** Paragraph i's entries sit between those of the paragraphs before it
      and those of the paragraphs after it. */
  lemma ParagraphLayout(ps: seq<string>, i: nat)
    requires i < |ps|
    ensures Concat(ParagraphBlocks(ps)) ==
      Concat(ParagraphBlocks(ps[..i])) + ParagraphBlock(ps[i]) + Concat(ParagraphBlocks(ps[i + 1..]))
  {
    var bs := ParagraphBlocks(ps);
    ConcatLayout(bs, i);
    MapAt(ParagraphBlock, ps, i);
    MapPrefix(ParagraphBlock, ps, i);
    MapSuffix(ParagraphBlock, ps, i + 1);
  }

  /** The number of lines over all paragraphs. */
  function LineCount(ps: seq<string>): nat {
    if ps == [] then 0 else LineCount(ps[..|ps| - 1]) + |Split(ps[|ps| - 1], "\n")|
  }

  /** One entry per line of every paragraph plus one separator per
      paragraph. */
  lemma {:induction false} BlocksLength(ps: seq<string>)
    ensures |Concat(ParagraphBlocks(ps))| == LineCount(ps) + |ps|
  {
    if ps != [] {
      var n := |ps| - 1;
      BlocksLength(ps[..n]);
      var bs := ParagraphBlocks(ps);
      assert bs[..n] == ParagraphBlocks(ps[..n]);
      assert |bs[n]| == |Split(ps[n], "\n")| + 1;
    }
  }
}
