/** The per-line rule chain of `analyze_and_convert_text`: the regular
    expressions it tries, hand-coded as matchers that return the captured
    groups, and `ClassifyLine`, which tries them in the source's order and
    formats the first one that fires.

    The chain only ever sees a line taken from `paragraph.split('\n')` and
    stripped, that is not empty (see `IsLine`). On such a line `.` matches
    every character and `$` means the end of the line, which is how the
    matchers below read the patterns. */
module LineRules {
  import opened Strings

  /** A line as the rule chain receives it. */
  predicate IsLine(l: string) {
    l != [] && IsStripped(l) && '\n' !in l
  }

  predicate IsDigit(c: char) { '0' <= c <= '9' }
  predicate IsBullet(c: char) { c == '*' || c == '+' || c == '-' }
  predicate IsRuleChar(c: char) { c == '-' || c == '*' || c == '_' }

  /** The character classes whose runs the patterns consume: `#`, ` `,
      `\d`, `\s`, `[^\]]` and `[^)]`. */
  datatype CharClass = Hashes | Blanks | Digits | Spaces | NotCloseBracket | NotCloseParen

  predicate InClass(c: char, cls: CharClass) {
    match cls
    case Hashes => c == '#'
    case Blanks => c == ' '
    case Digits => IsDigit(c)
    case Spaces => IsSpace(c)
    case NotCloseBracket => c != ']'
    case NotCloseParen => c != ')'
  }

  predicate AllDigits(s: string) {
    forall k :: 0 <= k < |s| ==> IsDigit(s[k])
  }

  /** The longest prefix of `s` whose characters all satisfy `p`: what a
      greedy `[class]*` consumes. */
  function Span(s: string, p: CharClass): (n: nat)
    ensures n <= |s|
    ensures n < |s| ==> !InClass(s[n], p)
  {
    if s != [] && InClass(s[0], p) then 1 + Span(s[1..], p) else 0
  }

  /** Every character of the run is in the class. */
  lemma {:induction false} SpanAll(s: string, p: CharClass)
    ensures forall k :: 0 <= k < Span(s, p) ==> InClass(s[k], p)
  {
    if s != [] && InClass(s[0], p) {
      SpanAll(s[1..], p);
      assert forall k :: 1 <= k < Span(s, p) ==> s[k] == s[1..][k - 1];
    }
  }

  lemma {:induction false} SpanExact(s: string, p: CharClass, n: nat)
    requires n <= |s| && forall k :: 0 <= k < n ==> InClass(s[k], p)
    requires n < |s| ==> !InClass(s[n], p)
    ensures Span(s, p) == n
  {
    if n > 0 {
      assert forall k :: 0 <= k < n - 1 ==> s[1..][k] == s[k + 1];
      SpanExact(s[1..], p, n - 1);
    }
  }

  /** A run of class `p` ends where the first character outside it sits. */
  lemma SpanOf(x: string, rest: string, p: CharClass)
    requires forall i :: 0 <= i < |x| ==> InClass(x[i], p)
    requires rest == [] || !InClass(rest[0], p)
    ensures Span(x + rest, p) == |x|
  {
    var s := x + rest;
    forall i | 0 <= i < |x| ensures InClass(s[i], p) {
      assert s[i] == x[i];
    }
    if rest != [] {
      assert s[|x|] == rest[0];
    }
    SpanExact(s, p, |x|);
  }

  /** The longest suffix of `s` whose characters all satisfy `p`. */
  function SpanBack(s: string, p: CharClass): (n: nat)
    ensures n <= |s|
    ensures n < |s| ==> !InClass(s[|s| - 1 - n], p)
  {
    if s != [] && InClass(s[|s| - 1], p) then 1 + SpanBack(s[..|s| - 1], p) else 0
  }

  /** The position of the last `c` in `s`. */
  function LastIndexOf(s: string, c: char): (r: Option<nat>)
    ensures r.Some? ==> r.value < |s| && s[r.value] == c
  {
    if s == [] then None
    else if s[|s| - 1] == c then Some(|s| - 1)
    else LastIndexOf(s[..|s| - 1], c)
  }

  /** No `c` follows the one found, and none is missed. */
  lemma {:induction false} LastIndexOfSpec(s: string, c: char)
    ensures var r := LastIndexOf(s, c);
      (r.Some? ==> forall k :: r.value < k < |s| ==> s[k] != c) && (r.None? ==> c !in s)
  {
    if s != [] && s[|s| - 1] != c {
      var s' := s[..|s| - 1];
      LastIndexOfSpec(s', c);
      assert s == s' + [s[|s| - 1]];
    }
  }

  // ---------------------------------------------------------------------
  // Rule 1, main.py:98-105: ^( {0,3})```(.*)\n(.*?)\n( {0,3})```$ with DOTALL

  datatype Fence = Fence(indent1: string, language: string, content: string, indent2: string)

  /** The text the fence rule emits, which is also the shape it matches. */
  function FenceText(f: Fence): string {
    f.indent1 + "```" + f.language + "\n" + f.content + "\n" + f.indent2 + "```"
  }

  /** What lies between the opening and the closing backticks, split as
      the regex does: the greedy language group runs to the last line feed
      before the closing line, the lazy content group is what lies between,
      and the closing indent is at most three spaces. */
  function FenceBody(body: string): (r: Option<(string, string, string)>)
    ensures r.Some? ==> body == r.value.0 + "\n" + r.value.1 + "\n" + r.value.2
    ensures r.Some? ==> '\n' !in r.value.1 && |r.value.2| <= 3
  {
    var m := SpanBack(body, Blanks);
    if m > 3 || m == |body| || body[|body| - 1 - m] != '\n' then None
    else
      var q := |body| - 1 - m;
      LastIndexOfSpec(body[..q], '\n');
      match LastIndexOf(body[..q], '\n')
      case None => None
      case Some(p) =>
        var language, content, indent2 := body[..p], body[p + 1..q], body[q + 1..];
        assert body[..q] == language + "\n" + content;
        assert body == body[..q] + "\n" + indent2;
        Some((language, content, indent2))
  }

  /** The opening indent is the run of leading spaces, at most three. */
  function FenceMatch(l: string): (r: Option<Fence>)
    ensures r.Some? ==> l == FenceText(r.value)
    ensures r.Some? ==> |r.value.indent1| <= 3 && |r.value.indent2| <= 3
    ensures r.Some? ==> '\n' !in r.value.content
  {
    var k := Span(l, Blanks);
    SpanAll(l, Blanks);
    if k > 3 || |l| < k + 3 || l[k..k + 3] != "```" then None
    else
      var rest := l[k + 3..];
      if |rest| < 3 || rest[|rest| - 3..] != "```" then None
      else
        var body := rest[..|rest| - 3];
        assert rest == body + "```";
        match FenceBody(body)
        case None => None
        case Some(parts) =>
          var f := Fence(l[..k], parts.0, parts.1, parts.2);
          FenceAssemble(l, k, body, f);
          Some(f)
  }

  lemma FenceAssemble(l: string, k: nat, body: string, f: Fence)
    requires k + 3 <= |l| && l[k..k + 3] == "```" && f.indent1 == l[..k]
    requires |l[k + 3..]| >= 3 && l[k + 3..] == body + "```"
    requires body == f.language + "\n" + f.content + "\n" + f.indent2
    ensures l == FenceText(f)
  {
    assert l == l[..k] + l[k..k + 3] + l[k + 3..];
  }

  lemma FenceTextHasNewline(f: Fence)
    ensures '\n' in FenceText(f)
  {
    assert FenceText(f)[|f.indent1| + 3 + |f.language|] == '\n';
  }

  /** The fence rule needs a line feed inside the line. */
  lemma FenceNeedsNewline(l: string)
    ensures FenceMatch(l).Some? ==> '\n' in l
  {
    if FenceMatch(l).Some? {
      FenceTextHasNewline(FenceMatch(l).value);
    }
  }

  /** So it never fires on a line of `split('\n')`. */
  lemma FenceUnreachable(l: string)
    requires '\n' !in l
    ensures FenceMatch(l).None?
  {
    FenceNeedsNewline(l);
  }

  // ---------------------------------------------------------------------
  // Rule 2, main.py:108-114: ^(#+) (.*)$

  datatype Heading = Heading(level: nat, content: string)

  function HeadingMatch(l: string): (r: Option<Heading>)
    ensures r.Some? ==> l != [] && l[0] == '#'
    ensures r.Some? ==> r.value.level >= 1 && l == Repeat('#', r.value.level) + " " + r.value.content
  {
    var k := Span(l, Hashes);
    SpanAll(l, Hashes);
    if 1 <= k < |l| && l[k] == ' ' then
      assert l[..k] == Repeat('#', k);
      assert l == l[..k] + " " + l[k + 1..];
      Some(Heading(k, l[k + 1..]))
    else None
  }

  lemma HeadingMatchOf(k: nat, c: string)
    requires k >= 1
    ensures HeadingMatch(Repeat('#', k) + " " + c) == Some(Heading(k, c))
  {
    var l := Repeat('#', k) + " " + c;
    SpanExact(l, Hashes, k);
    assert l[k + 1..] == c;
  }

  // ---------------------------------------------------------------------
  // Rule 3, main.py:117-122: ^(\d+)\.\s+(.*)$

  /** `gap` is the run matched by `\s+`, which the source does not capture. */
  datatype Ordered = Ordered(number: string, gap: string, content: string)

  function OrderedMatch(l: string): (r: Option<Ordered>)
    ensures r.Some? ==> l != [] && IsDigit(l[0])
    ensures r.Some? ==> var o := r.value;
      l == o.number + "." + o.gap + o.content && o.number != [] && AllDigits(o.number) &&
      o.gap != [] && AllSpace(o.gap) && (o.content == [] || !IsSpace(o.content[0]))
  {
    var d := Span(l, Digits);
    SpanAll(l, Digits);
    if 1 <= d < |l| && l[d] == '.' then
      var tail := l[d + 1..];
      var w := Span(tail, Spaces);
      SpanAll(tail, Spaces);
      if w >= 1 then
        var o := Ordered(l[..d], tail[..w], tail[w..]);
        assert l == o.number + "." + o.gap + o.content;
        Some(o)
      else None
    else None
  }

  lemma OrderedMatchOf(number: string, gap: string, content: string)
    requires number != [] && AllDigits(number)
    requires gap != [] && AllSpace(gap) && (content == [] || !IsSpace(content[0]))
    ensures OrderedMatch(number + "." + gap + content) == Some(Ordered(number, gap, content))
  {
    var l := number + "." + gap + content;
    var tail := gap + content;
    assert l == number + ("." + tail);
    SpanOf(number, "." + tail, Digits);
    assert l[|number|] == '.' && l[..|number|] == number && l[|number| + 1..] == tail;
    SpanOf(gap, content, Spaces);
    assert tail[..|gap|] == gap && tail[|gap|..] == content;
  }

  // ---------------------------------------------------------------------
  // Rule 4, main.py:125-130: ^([*+-])\s+(.*)$

  datatype Unordered = Unordered(marker: char, gap: string, content: string)

  function UnorderedMatch(l: string): (r: Option<Unordered>)
    ensures r.Some? ==> |l| >= 2 && IsBullet(l[0]) && IsSpace(l[1])
    ensures r.Some? ==> var u := r.value;
      l == [u.marker] + u.gap + u.content && IsBullet(u.marker) &&
      u.gap != [] && AllSpace(u.gap) && (u.content == [] || !IsSpace(u.content[0]))
  {
    if |l| >= 2 && IsBullet(l[0]) then
      var tail := l[1..];
      var w := Span(tail, Spaces);
      SpanAll(tail, Spaces);
      if w >= 1 then
        var u := Unordered(l[0], tail[..w], tail[w..]);
        assert l == [u.marker] + u.gap + u.content;
        Some(u)
      else None
    else None
  }

  lemma UnorderedMatchOf(marker: char, gap: string, content: string)
    requires IsBullet(marker)
    requires gap != [] && AllSpace(gap) && (content == [] || !IsSpace(content[0]))
    ensures UnorderedMatch([marker] + gap + content) == Some(Unordered(marker, gap, content))
  {
    var l := [marker] + gap + content;
    var tail := gap + content;
    assert l[1..] == tail;
    SpanOf(gap, content, Spaces);
    assert tail[..|gap|] == gap && tail[|gap|..] == content;
  }

  // ---------------------------------------------------------------------
  // Rule 5, main.py:133-137: ^>\s+(.*)$

  datatype Quote = Quote(gap: string, content: string)

  function QuoteMatch(l: string): (r: Option<Quote>)
    ensures r.Some? ==> l != [] && l[0] == '>'
    ensures r.Some? ==> var q := r.value;
      l == ">" + q.gap + q.content &&
      q.gap != [] && AllSpace(q.gap) && (q.content == [] || !IsSpace(q.content[0]))
  {
    if |l| >= 2 && l[0] == '>' then
      var tail := l[1..];
      var w := Span(tail, Spaces);
      SpanAll(tail, Spaces);
      if w >= 1 then
        var q := Quote(tail[..w], tail[w..]);
        assert l == ">" + q.gap + q.content;
        Some(q)
      else None
    else None
  }

  lemma QuoteMatchOf(gap: string, content: string)
    requires gap != [] && AllSpace(gap) && (content == [] || !IsSpace(content[0]))
    ensures QuoteMatch(">" + gap + content) == Some(Quote(gap, content))
  {
    var l := ">" + gap + content;
    var tail := gap + content;
    assert l[1..] == tail;
    SpanOf(gap, content, Spaces);
    assert tail[..|gap|] == gap && tail[|gap|..] == content;
  }

  // ---------------------------------------------------------------------
  // Rule 6, main.py:140-145: re.match(r'\[([^\]]+)\]\(([^)]+)\)', line)

  datatype Link = Link(text: string, url: string)

  function LinkText(k: Link): string {
    "[" + k.text + "](" + k.url + ")"
  }

  /** `([^)]+)\)`: the url runs to the first `)`, which must exist. */
  function LinkUrl(text: string, b: string): (r: Option<Link>)
    ensures r.Some? ==> var k := r.value;
      k.text == text && k.url != [] && ')' !in k.url &&
      |k.url| < |b| && b[..|k.url| + 1] == k.url + ")"
  {
    var u := Span(b, NotCloseParen);
    SpanAll(b, NotCloseParen);
    if u >= 1 && u < |b| && b[u] == ')' then
      var url := b[..u];
      assert forall i :: 0 <= i < u ==> url[i] != ')';
      assert b[..u + 1] == url + ")";
      Some(Link(text, url))
    else None
  }

  /** `([^\]]+)\]\(` followed by the url: the text runs to the first `]`,
      which must be followed by `(`. */
  function LinkBody(a: string): (r: Option<Link>)
    ensures r.Some? ==> var k := r.value; var n := |k.text| + |k.url| + 3;
      k.text != [] && ']' !in k.text && k.url != [] && ')' !in k.url &&
      n <= |a| && a[..n] == k.text + "](" + k.url + ")"
  {
    var t := Span(a, NotCloseBracket);
    SpanAll(a, NotCloseBracket);
    if t >= 1 && t + 2 <= |a| && a[t] == ']' && a[t + 1] == '(' then
      var text, b := a[..t], a[t + 2..];
      assert forall i :: 0 <= i < t ==> text[i] != ']';
      match LinkUrl(text, b)
      case None => None
      case Some(k) =>
        assert a == text + "](" + b;
        assert a[..|text| + |k.url| + 3] == text + "](" + b[..|k.url| + 1];
        Some(k)
    else None
  }

  /** `re.match` anchors the pattern at the start of the line only; what
      follows the closing parenthesis is not part of the match. */
  function LinkMatch(l: string): (r: Option<Link>)
    ensures r.Some? ==> l != [] && l[0] == '['
    ensures r.Some? ==> var k := r.value;
      |LinkText(k)| <= |l| && l[..|LinkText(k)|] == LinkText(k) &&
      k.text != [] && ']' !in k.text && k.url != [] && ')' !in k.url
  {
    if l == [] || l[0] != '[' then None
    else
      match LinkBody(l[1..])
      case None => None
      case Some(k) =>
        LinkPrefix(l, k);
        Some(k)
  }

  lemma LinkPrefix(l: string, k: Link)
    requires l != [] && l[0] == '['
    requires var n := |k.text| + |k.url| + 3; n <= |l[1..]| && l[1..][..n] == k.text + "](" + k.url + ")"
    ensures |LinkText(k)| <= |l| && l[..|LinkText(k)|] == LinkText(k)
  {
    var inner := k.text + "](" + k.url + ")";
    assert LinkText(k) == "[" + inner;
    assert l[..|LinkText(k)|] == [l[0]] + l[1..][..|inner|];
  }

  lemma LinkUrlOf(text: string, url: string, tail: string)
    requires url != [] && ')' !in url
    ensures LinkUrl(text, url + ")" + tail) == Some(Link(text, url))
  {
    forall i | 0 <= i < |url| ensures InClass(url[i], NotCloseParen) {
      assert url[i] in url;
    }
    SpanOf(url, ")" + tail, NotCloseParen);
    var b := url + ")" + tail;
    assert b == url + (")" + tail);
    assert b[|url|] == ')' && b[..|url|] == url;
  }

  lemma LinkBodyOf(k: Link, b: string)
    requires k.text != [] && ']' !in k.text && LinkUrl(k.text, b) == Some(k)
    ensures LinkBody(k.text + "](" + b) == Some(k)
  {
    var a := k.text + "](" + b;
    forall i | 0 <= i < |k.text| ensures InClass(k.text[i], NotCloseBracket) {
      assert k.text[i] in k.text;
    }
    SpanOf(k.text, "](" + b, NotCloseBracket);
    assert a == k.text + ("](" + b);
    var t := |k.text|;
    assert a[t] == ']' && a[t + 1] == '(' && a[..t] == k.text && a[t + 2..] == b;
  }

  lemma LinkMatchOf(k: Link, tail: string)
    requires k.text != [] && ']' !in k.text && k.url != [] && ')' !in k.url
    ensures LinkMatch(LinkText(k) + tail) == Some(k)
  {
    var b := k.url + ")" + tail;
    LinkUrlOf(k.text, k.url, tail);
    LinkBodyOf(k, b);
    LinkTextTail(k, tail);
  }

  lemma LinkTextTail(k: Link, tail: string)
    ensures LinkText(k) + tail == "[" + (k.text + "](" + (k.url + ")" + tail))
    ensures (LinkText(k) + tail)[1..] == k.text + "](" + (k.url + ")" + tail)
  {
  }

  // ---------------------------------------------------------------------
  // The emphasis passes, main.py:148-150: re.sub(d(.*?)d, d\1d, line) for
  // d = "**", "*" and "_"

  /** The lazy group: the first `d` at or after `j`, unless a line feed
      (which `.` does not match) comes first. */
  function FindClose(s: string, d: string, j: nat): (r: Option<nat>)
    requires |d| > 0 && j <= |s|
    ensures r.Some? ==> j <= r.value && OccursAt(s, d, r.value)
    decreases |s| - j
  {
    if j + |d| > |s| then None
    else if s[j..j + |d|] == d then Some(j)
    else if s[j] == '\n' then None
    else FindClose(s, d, j + 1)
  }

  /** `re.sub` scans left to right; where a match starts it emits the
      replacement `d + group + d` and resumes after the match, elsewhere it
      copies one character. The replacement is exactly the matched text, so
      the pass changes nothing. */
  function SubstituteDelimited(s: string, d: string): (r: string)
    requires |d| > 0
    ensures r == s
    decreases |s|
  {
    if s == [] then []
    else if OccursAt(s, d, 0) && FindClose(s, d, |d|).Some? then
      var j := FindClose(s, d, |d|).value;
      Reassemble(s, d, j);
      d + s[|d|..j] + d + SubstituteDelimited(s[j + |d|..], d)
    else
      [s[0]] + SubstituteDelimited(s[1..], d)
  }

  /** A match of `d(.*?)d` at the start put back together. */
  lemma Reassemble(s: string, d: string, j: nat)
    requires OccursAt(s, d, 0) && |d| <= j && OccursAt(s, d, j)
    ensures s == d + s[|d|..j] + d + s[j + |d|..]
  {
    CutAt(s, d, j);
    assert s[..j] == s[..|d|] + s[|d|..j];
  }

  /** The three emphasis passes in the source's order. */
  function Emphasis(l: string): (r: string)
    ensures r == l
  {
    SubstituteDelimited(SubstituteDelimited(SubstituteDelimited(l, "**"), "*"), "_")
  }

  // ---------------------------------------------------------------------
  // Rules 7 and 8, main.py:153-161

  /** ^[-*_]{3,}$ */
  predicate IsRuleLine(e: string) {
    |e| >= 3 && forall k :: 0 <= k < |e| ==> IsRuleChar(e[k])
  }

  /** ^\.\.\.(.*?)\.\.\.$ */
  predicate IsTableLine(e: string) {
    |e| >= 6 && e[..3] == "..." && e[|e| - 3..] == "..."
  }

  // ---------------------------------------------------------------------
  // The chain, main.py:97-165

  // Each rule gives the line it appends when it fires, and None when the
  // chain goes on to the next rule.

  function FenceRule(l: string): Option<string> {
    match FenceMatch(l)
    case None => None
    case Some(f) => Some(FenceText(f))
  }

  /** Levels outside 1 to 6 do not fire: the chain goes on. */
  function HeadingRule(l: string): (r: Option<string>)
    ensures r.Some? ==> l != [] && l[0] == '#'
    ensures r.Some? ==> r.value != [] && r.value[0] == '#'
  {
    match HeadingMatch(l)
    case None => None
    case Some(h) =>
      if 1 <= h.level <= 6 then Some(Repeat('#', h.level) + " " + Strip(h.content)) else None
  }

  function OrderedRule(l: string): (r: Option<string>)
    ensures r.Some? ==> l != [] && IsDigit(l[0])
    ensures r.Some? ==> r.value != [] && IsDigit(r.value[0])
  {
    match OrderedMatch(l)
    case None => None
    case Some(o) => Some(o.number + ". " + o.content)
  }

  function UnorderedRule(l: string): (r: Option<string>)
    ensures r.Some? ==> |l| >= 2 && IsBullet(l[0]) && IsSpace(l[1])
    ensures r.Some? ==> |r.value| >= 2 && r.value[1] == ' '
  {
    match UnorderedMatch(l)
    case None => None
    case Some(u) => Some([u.marker] + " " + u.content)
  }

  function QuoteRule(l: string): (r: Option<string>)
    ensures r.Some? ==> l != [] && l[0] == '>'
    ensures r.Some? ==> r.value != [] && r.value[0] == '>'
  {
    match QuoteMatch(l)
    case None => None
    case Some(q) => Some("> " + Strip(q.content))
  }

  function LinkRule(l: string): (r: Option<string>)
    ensures r.Some? ==> l != [] && l[0] == '['
    ensures r.Some? ==> r.value != [] && r.value[0] == '['
  {
    match LinkMatch(l)
    case None => None
    case Some(k) => Some(LinkText(k))
  }

  /** The plain-text rule: the measured indent, then the stripped line. */
  function PlainText(e: string): string {
    Repeat(' ', |e| - |LStrip(e)|) + Strip(e)
  }

  /** On a stripped line the measured indent is zero, so nothing is
      re-indented. */
  lemma PlainTextStripped(e: string)
    requires IsStripped(e)
    ensures PlainText(e) == e
  {
    StripStripped(e);
    assert Repeat(' ', 0) + e == e;
  }

  /** The Markdown line the chain emits for one stripped, non-empty line:
      the first rule that fires decides. */
  function ClassifyLine(l: string): string
    requires IsLine(l)
  {
    if FenceRule(l).Some? then FenceRule(l).value
    else if HeadingRule(l).Some? then HeadingRule(l).value
    else if OrderedRule(l).Some? then OrderedRule(l).value
    else if UnorderedRule(l).Some? then UnorderedRule(l).value
    else if QuoteRule(l).Some? then QuoteRule(l).value
    else if LinkRule(l).Some? then LinkRule(l).value
    else
      var e := Emphasis(l);
      if IsRuleLine(e) then "---"
      else if IsTableLine(e) then e
      else PlainText(e)
  }

  // ---------------------------------------------------------------------
  // What the chain does, rule by rule

  // Which rule decides, for a line the chain receives.

  lemma ChainHeading(l: string)
    requires IsLine(l) && HeadingRule(l).Some?
    ensures ClassifyLine(l) == HeadingRule(l).value
  {
    FenceUnreachable(l);
  }

  lemma ChainOrdered(l: string)
    requires IsLine(l) && OrderedRule(l).Some?
    ensures ClassifyLine(l) == OrderedRule(l).value
  {
    FenceUnreachable(l);
  }

  lemma ChainUnordered(l: string)
    requires IsLine(l) && UnorderedRule(l).Some?
    ensures ClassifyLine(l) == UnorderedRule(l).value
  {
    FenceUnreachable(l);
    assert IsBullet(l[0]);
    assert HeadingRule(l).None? && OrderedRule(l).None?;
  }

  lemma ChainQuote(l: string)
    requires IsLine(l) && QuoteRule(l).Some?
    ensures ClassifyLine(l) == QuoteRule(l).value
  {
    FenceUnreachable(l);
    assert l[0] == '>';
    assert HeadingRule(l).None? && OrderedRule(l).None? && UnorderedRule(l).None?;
  }

  lemma ChainLink(l: string)
    requires IsLine(l) && LinkRule(l).Some?
    ensures ClassifyLine(l) == LinkRule(l).value
  {
    FenceUnreachable(l);
    assert l[0] == '[';
    assert HeadingRule(l).None? && OrderedRule(l).None? && UnorderedRule(l).None?;
    assert QuoteRule(l).None?;
  }

  /** Past the link rule: a rule line, a table line or plain text, all
      judged on the line after the emphasis passes, which is the line
      itself. */
  lemma ChainTail(l: string)
    requires IsLine(l)
    requires HeadingRule(l).None? && OrderedRule(l).None? && UnorderedRule(l).None?
    requires QuoteRule(l).None? && LinkRule(l).None?
    ensures ClassifyLine(l) == if IsRuleLine(l) then "---" else l
  {
    FenceUnreachable(l);
    PlainTextStripped(l);
  }

  /** A line no rule rewrites comes out as it went in: the emphasis passes
      change nothing, and the plain-text rule re-applies an indent that is
      always zero because the line was stripped first. */
  lemma Fallback(l: string)
    requires IsLine(l)
    requires HeadingRule(l).None? && OrderedRule(l).None? && UnorderedRule(l).None?
    requires QuoteRule(l).None? && LinkRule(l).None? && !IsRuleLine(l)
    ensures ClassifyLine(l) == l
  {
    ChainTail(l);
  }

  /** `#` repeated k times (1 <= k <= 6), a space and c becomes the same
      hashes, one space and c stripped. */
  lemma HeadingLine(k: nat, c: string)
    requires 1 <= k <= 6 && IsLine(Repeat('#', k) + " " + c)
    ensures ClassifyLine(Repeat('#', k) + " " + c) == Repeat('#', k) + " " + Strip(c)
  {
    HeadingMatchOf(k, c);
    ChainHeading(Repeat('#', k) + " " + c);
  }

  /** The pattern consumes a single space after the hashes; the strip of
      the content removes any further whitespace. */
  lemma HeadingSpaces(k: nat, w: string, c: string)
    requires 1 <= k <= 6 && AllSpace(w) && IsStripped(c)
    requires IsLine(Repeat('#', k) + " " + w + c)
    ensures ClassifyLine(Repeat('#', k) + " " + w + c) == Repeat('#', k) + " " + c
  {
    var h, d := Repeat('#', k), w + c;
    assert h + " " + w + c == h + " " + d;
    StripSpacePrefix(w, c);
    StripStripped(c);
    assert Strip(d) == c;
    HeadingLine(k, d);
  }

  /** Seven or more hashes are not a heading: the line falls through every
      rule and comes out unchanged. */
  lemma HeadingTooDeep(k: nat, c: string)
    requires k >= 7 && IsLine(Repeat('#', k) + " " + c)
    ensures ClassifyLine(Repeat('#', k) + " " + c) == Repeat('#', k) + " " + c
  {
    var l := Repeat('#', k) + " " + c;
    HeadingMatchOf(k, c);
    assert l[0] == '#';
    Fallback(l);
  }

  /** `digits "." whitespace rest` becomes `digits ". " rest`: the run of
      whitespace after the dot collapses to one space. */
  lemma OrderedLine(number: string, gap: string, content: string)
    requires number != [] && AllDigits(number)
    requires gap != [] && AllSpace(gap) && (content == [] || !IsSpace(content[0]))
    requires IsLine(number + "." + gap + content)
    ensures ClassifyLine(number + "." + gap + content) == number + ". " + content
  {
    OrderedMatchOf(number, gap, content);
    ChainOrdered(number + "." + gap + content);
  }

  /** `m whitespace rest` with m one of `*`, `+`, `-` becomes `m " " rest`. */
  lemma UnorderedLine(marker: char, gap: string, content: string)
    requires IsBullet(marker)
    requires gap != [] && AllSpace(gap) && (content == [] || !IsSpace(content[0]))
    requires IsLine([marker] + gap + content)
    ensures ClassifyLine([marker] + gap + content) == [marker] + " " + content
  {
    UnorderedMatchOf(marker, gap, content);
    ChainUnordered([marker] + gap + content);
  }

  /** `> whitespace rest` becomes `"> " rest`; stripping the rest changes
      nothing, since the line was stripped already. */
  lemma QuoteLine(gap: string, content: string)
    requires gap != [] && AllSpace(gap) && (content == [] || !IsSpace(content[0]))
    requires IsLine(">" + gap + content)
    ensures ClassifyLine(">" + gap + content) == "> " + content
  {
    var l := ">" + gap + content;
    QuoteMatchOf(gap, content);
    assert content == l[1 + |gap|..];
    StripStripped(content);
    ChainQuote(l);
  }

  /** A line that starts with `[text](url)` becomes exactly that link; what
      follows it on the line is dropped. */
  lemma LinkLine(k: Link, tail: string)
    requires k.text != [] && ']' !in k.text && k.url != [] && ')' !in k.url
    requires IsLine(LinkText(k) + tail)
    ensures ClassifyLine(LinkText(k) + tail) == LinkText(k)
  {
    LinkMatchOf(k, tail);
    ChainLink(LinkText(k) + tail);
  }

  /** A line that opens like plain text stays as it is; in particular an
      opening bracket anywhere but at the start is not a link for the
      chain. */
  lemma PlainLine(l: string)
    requires IsLine(l) && !IsRuleLine(l)
    requires !IsDigit(l[0]) && l[0] != '#' && l[0] != '>' && l[0] != '['
    requires !(IsBullet(l[0]) && |l| >= 2 && IsSpace(l[1]))
    ensures ClassifyLine(l) == l
  {
    Fallback(l);
  }

  /** A line between `...` delimiters passes through unchanged. */
  lemma TableLine(l: string)
    requires IsLine(l) && IsTableLine(l)
    ensures ClassifyLine(l) == l
  {
    assert l[0] == l[..3][0] == '.';
    PlainLine(l);
  }

  /** Some rule before the rule-line test fires. */
  predicate EarlyRule(l: string) {
    HeadingRule(l).Some? || OrderedRule(l).Some? || UnorderedRule(l).Some? ||
    QuoteRule(l).Some? || LinkRule(l).Some?
  }

  // A line some rule before the rule-line test takes is not a rule line,
  // and what that rule emits is not `---`.

  lemma HeadingNotRule(l: string)
    requires IsLine(l) && HeadingRule(l).Some?
    ensures ClassifyLine(l) != "---" && !IsRuleLine(l)
  {
    ChainHeading(l);
    assert "---"[0] == '-' && !IsRuleChar(l[0]);
  }

  lemma OrderedNotRule(l: string)
    requires IsLine(l) && OrderedRule(l).Some?
    ensures ClassifyLine(l) != "---" && !IsRuleLine(l)
  {
    ChainOrdered(l);
    assert "---"[0] == '-' && !IsRuleChar(l[0]);
  }

  lemma UnorderedNotRule(l: string)
    requires IsLine(l) && UnorderedRule(l).Some?
    ensures ClassifyLine(l) != "---" && !IsRuleLine(l)
  {
    ChainUnordered(l);
    assert "---"[1] == '-' && !IsRuleChar(l[1]);
  }

  lemma QuoteNotRule(l: string)
    requires IsLine(l) && QuoteRule(l).Some?
    ensures ClassifyLine(l) != "---" && !IsRuleLine(l)
  {
    ChainQuote(l);
    assert "---"[0] == '-' && !IsRuleChar(l[0]);
  }

  lemma LinkNotRule(l: string)
    requires IsLine(l) && LinkRule(l).Some?
    ensures ClassifyLine(l) != "---" && !IsRuleLine(l)
  {
    ChainLink(l);
    assert "---"[0] == '-' && !IsRuleChar(l[0]);
  }

  lemma EarlyNotRule(l: string)
    requires IsLine(l) && EarlyRule(l)
    ensures ClassifyLine(l) != "---" && !IsRuleLine(l)
  {
    if HeadingRule(l).Some? {
      HeadingNotRule(l);
    } else if OrderedRule(l).Some? {
      OrderedNotRule(l);
    } else if UnorderedRule(l).Some? {
      UnorderedNotRule(l);
    } else if QuoteRule(l).Some? {
      QuoteNotRule(l);
    } else {
      LinkNotRule(l);
    }
  }

  /** A line becomes `---` exactly when it is three or more of `-`, `*`,
      `_`; none of the earlier rules can take such a line, since each needs
      a `#`, a digit, whitespace, `>` or `[`. */
  lemma HorizontalRule(l: string)
    requires IsLine(l)
    ensures ClassifyLine(l) == "---" <==> IsRuleLine(l)
  {
    if EarlyRule(l) {
      EarlyNotRule(l);
    } else {
      ChainTail(l);
      assert IsRuleLine("---");
    }
  }

  /** The rule line the chain emits is classified to itself. */
  lemma DashesStable()
    ensures IsLine("---") && ClassifyLine("---") == "---"
  {
    assert IsRuleLine("---");
    HorizontalRule("---");
  }

  lemma StripLast(s: string)
    requires s != [] && !IsSpace(s[|s| - 1])
    ensures Strip(s) != [] && Strip(s)[|Strip(s)| - 1] == s[|s| - 1]
  {
    LStripSpec(s);
    var t := LStrip(s);
    assert t != [] && t[|t| - 1] == s[|s| - 1];
  }

  // Each rule emits a line the chain could be given again.

  lemma HeadingRuleIsLine(l: string)
    requires IsLine(l) && HeadingRule(l).Some?
    ensures IsLine(HeadingRule(l).value)
  {
    var h := HeadingMatch(l).value;
    var c := h.content;
    assert c != [] && c[|c| - 1] == l[|l| - 1];
    StripLast(c);
    StripKeepsChar(c, '\n');
    var r := Repeat('#', h.level) + " " + Strip(c);
    assert r[|r| - 1] == Strip(c)[|Strip(c)| - 1];
  }

  lemma OrderedRuleIsLine(l: string)
    requires IsLine(l) && OrderedRule(l).Some?
    ensures IsLine(OrderedRule(l).value)
  {
    var o := OrderedMatch(l).value;
    assert o.content != [] && o.content[|o.content| - 1] == l[|l| - 1];
  }

  lemma UnorderedRuleIsLine(l: string)
    requires IsLine(l) && UnorderedRule(l).Some?
    ensures IsLine(UnorderedRule(l).value)
  {
    var u := UnorderedMatch(l).value;
    assert u.content != [] && u.content[|u.content| - 1] == l[|l| - 1];
  }

  lemma QuoteRuleIsLine(l: string)
    requires IsLine(l) && QuoteRule(l).Some?
    ensures IsLine(QuoteRule(l).value)
  {
    var q := QuoteMatch(l).value;
    assert q.content != [] && q.content[|q.content| - 1] == l[|l| - 1];
    StripLast(q.content);
    StripKeepsChar(q.content, '\n');
  }

  lemma LinkRuleIsLine(l: string)
    requires IsLine(l) && LinkRule(l).Some?
    ensures IsLine(LinkRule(l).value)
  {
    var k := LinkMatch(l).value;
    assert LinkText(k) == l[..|LinkText(k)|];
  }

  /** The chain only emits lines it could be given again. */
  lemma ClassifyLineIsLine(l: string)
    requires IsLine(l)
    ensures IsLine(ClassifyLine(l))
  {
    if HeadingRule(l).Some? {
      ChainHeading(l);
      HeadingRuleIsLine(l);
    } else if OrderedRule(l).Some? {
      ChainOrdered(l);
      OrderedRuleIsLine(l);
    } else if UnorderedRule(l).Some? {
      ChainUnordered(l);
      UnorderedRuleIsLine(l);
    } else if QuoteRule(l).Some? {
      ChainQuote(l);
      QuoteRuleIsLine(l);
    } else if LinkRule(l).Some? {
      ChainLink(l);
      LinkRuleIsLine(l);
    } else {
      ChainTail(l);
      assert IsLine("---");
    }
  }

  // Each rule emits its construct in the form it matches, so the line it
  // emits is classified to itself.

  lemma HeadingRuleStable(l: string)
    requires IsLine(l) && HeadingRule(l).Some?
    ensures IsLine(HeadingRule(l).value) && ClassifyLine(HeadingRule(l).value) == HeadingRule(l).value
  {
    HeadingRuleIsLine(l);
    var h := HeadingMatch(l).value;
    var c := Strip(h.content);
    HeadingLine(h.level, c);
    StripStripped(c);
  }

  lemma DotSpace(a: string, b: string)
    ensures a + "." + " " + b == a + ". " + b
  {
    assert a + "." + " " == a + ". ";
  }

  lemma OrderedRuleStable(l: string)
    requires IsLine(l) && OrderedRule(l).Some?
    ensures IsLine(OrderedRule(l).value) && ClassifyLine(OrderedRule(l).value) == OrderedRule(l).value
  {
    OrderedRuleIsLine(l);
    var o := OrderedMatch(l).value;
    DotSpace(o.number, o.content);
    OrderedLine(o.number, " ", o.content);
  }

  lemma UnorderedRuleStable(l: string)
    requires IsLine(l) && UnorderedRule(l).Some?
    ensures IsLine(UnorderedRule(l).value) && ClassifyLine(UnorderedRule(l).value) == UnorderedRule(l).value
  {
    UnorderedRuleIsLine(l);
    var u := UnorderedMatch(l).value;
    UnorderedLine(u.marker, " ", u.content);
  }

  lemma QuoteRuleStable(l: string)
    requires IsLine(l) && QuoteRule(l).Some?
    ensures IsLine(QuoteRule(l).value) && ClassifyLine(QuoteRule(l).value) == QuoteRule(l).value
  {
    QuoteRuleIsLine(l);
    var c := Strip(QuoteMatch(l).value.content);
    assert ">" + " " + c == "> " + c;
    QuoteLine(" ", c);
  }

  lemma LinkRuleStable(l: string)
    requires IsLine(l) && LinkRule(l).Some?
    ensures IsLine(LinkRule(l).value) && ClassifyLine(LinkRule(l).value) == LinkRule(l).value
  {
    LinkRuleIsLine(l);
    var k := LinkMatch(l).value;
    assert LinkText(k) + [] == LinkText(k);
    LinkLine(k, []);
  }

  lemma EarlyIdempotent(l: string)
    requires IsLine(l) && EarlyRule(l)
    ensures IsLine(ClassifyLine(l)) && ClassifyLine(ClassifyLine(l)) == ClassifyLine(l)
  {
    if HeadingRule(l).Some? {
      ChainHeading(l);
      HeadingRuleStable(l);
    } else if OrderedRule(l).Some? {
      ChainOrdered(l);
      OrderedRuleStable(l);
    } else if UnorderedRule(l).Some? {
      ChainUnordered(l);
      UnorderedRuleStable(l);
    } else if QuoteRule(l).Some? {
      ChainQuote(l);
      QuoteRuleStable(l);
    } else {
      ChainLink(l);
      LinkRuleStable(l);
    }
  }

  lemma LateIdempotent(l: string)
    requires IsLine(l) && !EarlyRule(l)
    ensures IsLine(ClassifyLine(l)) && ClassifyLine(ClassifyLine(l)) == ClassifyLine(l)
  {
    ChainTail(l);
    if IsRuleLine(l) {
      DashesStable();
    }
  }

  /** Classifying an emitted line again gives the same line. */
  lemma ClassifyIdempotent(l: string)
    requires IsLine(l)
    ensures IsLine(ClassifyLine(l)) && ClassifyLine(ClassifyLine(l)) == ClassifyLine(l)
  {
    if EarlyRule(l) {
      EarlyIdempotent(l);
    } else {
      LateIdempotent(l);
    }
  }

  // ---------------------------------------------------------------------
  // Worked examples

  /** The whitespace after the number collapses to one space. */
  lemma OrderedExample()
    ensures ClassifyLine("3.   hello") == "3. hello"
  {
    var number, gap, content := "3", "   ", "hello";
    assert AllDigits(number) && AllSpace(gap) && !IsSpace(content[0]);
    assert number + "." + gap + content == "3.   hello";
    assert IsLine("3.   hello");
    assert number + ". " + content == "3. hello";
    OrderedLine(number, gap, content);
  }

  /** Seven hashes are not a heading; the line is left as it is. */
  lemma HeadingBoundExample()
    ensures ClassifyLine("####### text") == "####### text"
  {
    var l := "####### text";
    assert Repeat('#', 7) == "#######";
    assert l == Repeat('#', 7) + " " + "text";
    assert IsLine(l);
    HeadingTooDeep(7, "text");
  }

  /** `#   Title` becomes `# Title`. */
  lemma HeadingSpacesExample()
    ensures ClassifyLine("#   Title") == "# Title"
  {
    var h, w, c := Repeat('#', 1), "  ", "Title";
    assert h == "#";
    assert h + " " + w + c == "#   Title";
    assert h + " " + c == "# Title";
    assert IsLine(h + " " + w + c);
    HeadingSpaces(1, w, c);
  }

  lemma RuleExample()
    ensures ClassifyLine("-*_") == "---"
  {
    HorizontalRule("-*_");
  }

  /** Emphasis markers are kept as they are. */
  lemma EmphasisExample()
    ensures IsLine("Some *text* here.") && ClassifyLine("Some *text* here.") == "Some *text* here."
  {
    PlainLine("Some *text* here.");
  }

  /** A link later in the line is plain text. */
  lemma LinkLaterExample()
    ensures ClassifyLine("see [docs](http://x)") == "see [docs](http://x)"
  {
    PlainLine("see [docs](http://x)");
  }

}
