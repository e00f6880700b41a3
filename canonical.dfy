/** Text that is already Markdown in the shape the converter emits comes
    back unchanged from `analyze_and_convert_text` (main.py:86-168). */
module Canonical {
  import opened Strings
  import opened LineRules
  import opened Converter

  /** A line the chain gives back as it is. */
  predicate CanonicalLine(l: string) {
    IsLine(l) && ClassifyLine(l) == l
  }

  /** A paragraph: one or more canonical lines. */
  predicate CanonicalParagraph(ls: seq<string>) {
    ls != [] && forall k :: 0 <= k < |ls| ==> CanonicalLine(ls[k])
  }

  /** A document: one or more canonical paragraphs. */
  predicate CanonicalDocument(d: seq<seq<string>>) {
    d != [] && forall k :: 0 <= k < |d| ==> CanonicalParagraph(d[k])
  }

  /** The paragraphs' texts, their lines joined by line feeds. */
  function Paragraphs(d: seq<seq<string>>): seq<string> {
    seq(|d|, k requires 0 <= k < |d| => Join(d[k], "\n"))
  }

  /** The document's text, its paragraphs joined by a blank line. */
  function DocumentText(d: seq<seq<string>>): string {
    Join(Paragraphs(d), "\n\n")
  }

  /** Every line feed is followed by a character other than a line feed. */
  predicate NoDoubleNewline(p: string) {
    forall j :: 0 <= j < |p| && p[j] == '\n' ==> j + 1 < |p| && p[j + 1] != '\n'
  }

  lemma CleanNoNewline(x: string, sep: string)
    requires |sep| > 0 && sep[0] == '\n' && '\n' !in x
    ensures CleanBefore(x, sep) && Find(x, sep).None?
  {
    forall j: nat | j < |x| ensures !OccursAt(x + sep, sep, j) {
      assert (x + sep)[j..j + |sep|][0] == x[j];
    }
    forall k: nat | k + |sep| <= |x| ensures !OccursAt(x, sep, k) {
      assert x[k..k + |sep|][0] == x[k];
    }
  }

  lemma CleanParagraph(p: string)
    requires NoDoubleNewline(p)
    ensures CleanBefore(p, "\n\n") && Find(p, "\n\n").None?
  {
    forall j: nat | j < |p| ensures !OccursAt(p + "\n\n", "\n\n", j) {
      assert (p + "\n\n")[j] == p[j];
      if j + 1 < |p| {
        assert (p + "\n\n")[j + 1] == p[j + 1];
      }
      assert (p + "\n\n")[j..j + 2] == [(p + "\n\n")[j], (p + "\n\n")[j + 1]];
    }
    forall k: nat | k + 2 <= |p| ensures !OccursAt(p, "\n\n", k) {
      assert p[k..k + 2] == [p[k], p[k + 1]];
    }
  }

  predicate LinesShape(ls: seq<string>) {
    ls != [] && forall k :: 0 <= k < |ls| ==> ls[k] != [] && '\n' !in ls[k]
  }

  /** Joining non-empty lines free of line feeds never puts two line feeds
      side by side, nor one at either end. */
  lemma {:induction false} JoinLinesShape(ls: seq<string>)
    requires LinesShape(ls)
    ensures NoDoubleNewline(Join(ls, "\n"))
    decreases |ls|
  {
    if |ls| > 1 {
      var x, tail := ls[0], ls[1..];
      assert forall k :: 0 <= k < |tail| ==> tail[k] == ls[k + 1];
      JoinLinesShape(tail);
      var q := Join(tail, "\n");
      JoinFirst(tail, "\n");
      var p := x + "\n" + q;
      assert Join(ls, "\n") == p;
      assert forall j :: 0 <= j < |x| ==> p[j] == x[j];
      forall j | |x| <= j < |p| && p[j] == '\n' ensures j + 1 < |p| && p[j + 1] != '\n' {
        if j > |x| {
          assert p[j] == q[j - |x| - 1];
          if j + 1 < |p| {
            assert p[j + 1] == q[j - |x|];
          }
        } else {
          assert p[j + 1] == q[0];
        }
      }
    }
  }

  lemma CanonicalShape(ls: seq<string>)
    requires CanonicalParagraph(ls)
    ensures LinesShape(ls)
  {
  }

  /** Each canonical line converts to itself. */
  lemma CanonicalLines(ls: seq<string>)
    requires CanonicalParagraph(ls)
    ensures NewlineFree(ls) && ConvertLines(ls) == ls
  {
    var r := ConvertLines(ls);
    forall k | 0 <= k < |ls| ensures r[k] == ls[k] {
      ConvertLinesAt(ls, k);
      StripStripped(ls[k]);
    }
  }

  /** A canonical paragraph appends its own lines and then the separator. */
  lemma CanonicalBlock(ls: seq<string>)
    requires CanonicalParagraph(ls)
    ensures ParagraphBlock(Join(ls, "\n")) == ls + [""]
  {
    forall k | 0 <= k < |ls| - 1 ensures CleanBefore(ls[k], "\n") {
      CleanNoNewline(ls[k], "\n");
    }
    CleanNoNewline(ls[|ls| - 1], "\n");
    SplitJoinInverse(ls, "\n");
    CanonicalLines(ls);
  }

  /** What a canonical document's paragraphs append: their lines, then
      the separator. */
  function Blocked(d: seq<seq<string>>): seq<seq<string>> {
    seq(|d|, k requires 0 <= k < |d| => d[k] + [""])
  }

  /** The document's text splits back into its paragraphs. */
  lemma CanonicalSplit(d: seq<seq<string>>)
    requires CanonicalDocument(d)
    ensures Split(DocumentText(d), "\n\n") == Paragraphs(d)
  {
    var ps := Paragraphs(d);
    forall k | 0 <= k < |ps| ensures CleanBefore(ps[k], "\n\n") && Find(ps[k], "\n\n").None? {
      CanonicalShape(d[k]);
      JoinLinesShape(d[k]);
      CleanParagraph(ps[k]);
    }
    SplitJoinInverse(ps, "\n\n");
  }

  lemma CanonicalMarkdownLines(d: seq<seq<string>>)
    requires CanonicalDocument(d)
    ensures MarkdownLines(DocumentText(d)) == Concat(Blocked(d))
  {
    CanonicalSplit(d);
    var ps := Paragraphs(d);
    forall k | 0 <= k < |d| ensures ParagraphBlocks(ps)[k] == Blocked(d)[k] {
      MapAt(ParagraphBlock, ps, k);
      CanonicalBlock(d[k]);
    }
    assert ParagraphBlocks(ps) == Blocked(d);
  }

  lemma Regroup(t: string, p: string)
    ensures (t + "\n") + "\n" + (p + "\n") == (t + "\n\n" + p) + "\n"
  {
  }

  /** Joining the appended entries gives the document's text and one more
      line feed, left by the last separator. */
  lemma {:induction false} JoinBlocked(d: seq<seq<string>>)
    requires d != [] && forall k :: 0 <= k < |d| ==> d[k] != []
    ensures Join(Concat(Blocked(d)), "\n") == DocumentText(d) + "\n"
    decreases |d|
  {
    var n := |d|;
    var last := d[n - 1];
    var bs := Blocked(d);
    assert Concat(bs) == Concat(bs[..n - 1]) + (last + [""]);
    JoinAppend(last, [""], "\n");
    assert Join(last + [""], "\n") == Join(last, "\n") + "\n";
    if n == 1 {
      assert bs[..0] == [];
      assert Concat(bs) == last + [""];
      assert DocumentText(d) == Join(last, "\n");
    } else {
      var front := d[..n - 1];
      JoinBlocked(front);
      assert bs[..n - 1] == Blocked(front);
      var x := Concat(Blocked(front));
      assert x == Concat(Blocked(front)[..n - 2]) + (front[n - 2] + [""]);
      JoinAppend(x, last + [""], "\n");
      var ps := Paragraphs(d);
      assert ps == Paragraphs(front) + [Join(last, "\n")];
      JoinAppend(Paragraphs(front), [Join(last, "\n")], "\n\n");
      Regroup(DocumentText(front), Join(last, "\n"));
    }
  }

  /** The document's text starts with its first line's first character and
      ends with its last line's last character, neither of them
      whitespace. */
  lemma DocumentStripped(d: seq<seq<string>>)
    requires CanonicalDocument(d)
    ensures DocumentText(d) != [] && IsStripped(DocumentText(d))
  {
    var ps := Paragraphs(d);
    var first, last := d[0], d[|d| - 1];
    JoinFirst(first, "\n");
    JoinFirst(ps, "\n\n");
    JoinLast(last, "\n");
    JoinLast(ps, "\n\n");
  }

  /** Canonical Markdown is a fixed point of the converter: every line is
      one the chain leaves alone, so the text comes back as it went in. */
  lemma CanonicalFixedPoint(d: seq<seq<string>>)
    requires CanonicalDocument(d)
    ensures ConvertText(DocumentText(d)) == DocumentText(d)
  {
    CanonicalMarkdownLines(d);
    JoinBlocked(d);
    DocumentStripped(d);
    StripFinalNewline(DocumentText(d));
  }

  // ---------------------------------------------------------------------
  // Worked examples

  lemma TwoParagraphs(x: string, y: string)
    requires CanonicalLine(x) && CanonicalLine(y)
    ensures CanonicalDocument([[x], [y]]) && DocumentText([[x], [y]]) == x + "\n\n" + y
  {
    var d := [[x], [y]];
    assert d[0] == [x] && d[1] == [y];
    assert Paragraphs(d) == [x, y];
    JoinCons(x, [y], "\n\n");
  }

  /** Two one-line paragraphs come back as they went in. */
  lemma ParagraphRoundTrip()
    ensures ConvertText("a" + "\n\n" + "b") == "a" + "\n\n" + "b"
  {
    PlainLine("a");
    PlainLine("b");
    TwoParagraphs("a", "b");
    CanonicalFixedPoint([["a"], ["b"]]);
  }

  lemma TitleLine()
    ensures CanonicalLine("# Title")
  {
    assert Repeat('#', 1) == "#";
    assert "# Title" == Repeat('#', 1) + " " + "Title";
    assert IsLine("# Title");
    StripStripped("Title");
    HeadingLine(1, "Title");
  }

  lemma ItemLine(content: string)
    requires IsLine("- " + content) && content != [] && !IsSpace(content[0])
    ensures CanonicalLine("- " + content)
  {
    var l := "- " + content;
    assert l == ['-'] + " " + content;
    UnorderedLine('-', " ", content);
  }

  lemma ItemOne()
    ensures CanonicalLine("- item one")
  {
    assert "- item one" == "- " + "item one";
    assert IsLine("- item one");
    ItemLine("item one");
  }

  lemma ItemTwo()
    ensures CanonicalLine("- item two")
  {
    assert "- item two" == "- " + "item two";
    assert IsLine("- item two");
    ItemLine("item two");
  }

  lemma TextLine()
    ensures CanonicalLine("Some *text* here.")
  {
    EmphasisExample();
  }

  lemma ThreeLines(a: string, b: string, c: string)
    requires CanonicalLine(a) && CanonicalLine(b) && CanonicalLine(c)
    ensures CanonicalParagraph([a, b, c])
  {
  }

  lemma HeadedText(t: string, a: string, b: string, c: string)
    ensures DocumentText([[t], [a, b, c]]) == t + "\n\n" + a + "\n" + b + "\n" + c
  {
    JoinCons(b, [c], "\n");
    JoinCons(a, [b, c], "\n");
    var second := a + "\n" + (b + "\n" + c);
    assert Paragraphs([[t], [a, b, c]]) == [t, second];
    JoinCons(t, [second], "\n\n");
  }

  /** A one-line paragraph followed by a three-line paragraph. */
  lemma HeadedParagraph(t: string, a: string, b: string, c: string)
    requires CanonicalLine(t) && CanonicalLine(a) && CanonicalLine(b) && CanonicalLine(c)
    ensures var text := t + "\n\n" + a + "\n" + b + "\n" + c;
      ConvertText(text) == text
  {
    var d := [[t], [a, b, c]];
    ThreeLines(a, b, c);
    assert CanonicalDocument(d) by {
      assert d[0] == [t] && d[1] == [a, b, c];
    }
    HeadedText(t, a, b, c);
    CanonicalFixedPoint(d);
  }

  /** A heading paragraph followed by a paragraph of a plain line and two
      list items comes back as it went in. */
  lemma EndToEnd()
    ensures var text := "# Title" + "\n\n" + "Some *text* here." + "\n" + "- item one" + "\n" + "- item two";
      ConvertText(text) == text
  {
    TitleLine();
    TextLine();
    ItemOne();
    ItemTwo();
    HeadedParagraph("# Title", "Some *text* here.", "- item one", "- item two");
  }
}
