/** The Python string built-ins the converter relies on: `str.strip`,
    `str.lstrip`, `str.split(sep)` and `sep.join(parts)`.

    Whitespace is Python's `str.isspace` restricted to ASCII: the control
    characters 9 to 13 (tab, line feed, vertical tab, form feed, carriage
    return), the separators 28 to 31 and the space. The same class serves
    for `\s` in the regular expressions, as it does in Python. */
module Strings {

  datatype Option<T> = None | Some(value: T)

  predicate IsSpace(c: char) {
    9 <= c as int <= 13 || 28 <= c as int <= 32
  }

  predicate AllSpace(s: string) {
    forall k :: 0 <= k < |s| ==> IsSpace(s[k])
  }

  /** No leading and no trailing whitespace. */
  predicate IsStripped(s: string) {
    s == [] || (!IsSpace(s[0]) && !IsSpace(s[|s| - 1]))
  }

  /** `s.lstrip()`: the suffix left after the leading whitespace (what
      exactly is left is `LStripSpec`). */
  function LStrip(s: string): (r: string)
    ensures |r| <= |s|
  {
    if s != [] && IsSpace(s[0]) then LStrip(s[1..]) else s
  }

  lemma {:induction false} LStripSpec(s: string)
    ensures var r := LStrip(s);
      r == s[|s| - |r|..] && AllSpace(s[..|s| - |r|]) && (r == [] || !IsSpace(r[0]))
  {
    if s != [] && IsSpace(s[0]) {
      LStripSpec(s[1..]);
      var r := LStrip(s[1..]);
      assert s[1..][..|s| - 1 - |r|] == s[1..|s| - |r|];
    }
  }

  /** `s.rstrip()`: the prefix left before the trailing whitespace. */
  function RStrip(s: string): (r: string)
    ensures |r| <= |s|
  {
    if s != [] && IsSpace(s[|s| - 1]) then RStrip(s[..|s| - 1]) else s
  }

  lemma {:induction false} RStripSpec(s: string)
    ensures var r := RStrip(s);
      r == s[..|r|] && AllSpace(s[|r|..]) && (r == [] || !IsSpace(r[|r| - 1]))
  {
    if s != [] && IsSpace(s[|s| - 1]) {
      RStripSpec(s[..|s| - 1]);
      var r := RStrip(s[..|s| - 1]);
      assert s[|r|..] == s[..|s| - 1][|r|..] + [s[|s| - 1]];
    }
  }

  /** `s.strip()`: no whitespace at either end; `StripSpec` says which
      infix of `s` it is. */
  function Strip(s: string): (r: string)
    ensures |r| <= |s| && IsStripped(r)
  {
    LStripSpec(s);
    RStripSpec(LStrip(s));
    RStrip(LStrip(s))
  }

  lemma StripSlices(s: string, t: string, r: string)
    requires |t| <= |s| && t == s[|s| - |t|..]
    requires |r| <= |t| && r == t[..|r|]
    ensures var i := |s| - |t|; i + |r| <= |s| && r == s[i..i + |r|] && s[i + |r|..] == t[|r|..]
  {
  }

  /** `s.strip()` is the infix between the leading whitespace and the
      trailing whitespace of `s`. */
  lemma StripSpec(s: string)
    ensures var i := |s| - |LStrip(s)|; var r := Strip(s);
      i + |r| <= |s| && r == s[i..i + |r|] && AllSpace(s[..i]) && AllSpace(s[i + |r|..])
  {
    var t := LStrip(s);
    var r := RStrip(t);
    LStripSpec(s);
    RStripSpec(t);
    StripSlices(s, t, r);
    var i := |s| - |t|;
    assert Strip(s) == r;
    assert AllSpace(s[..i]) && AllSpace(t[|r|..]);
    assert s[i + |r|..] == t[|r|..];
  }

  lemma StripStripped(s: string)
    requires IsStripped(s)
    ensures LStrip(s) == s && RStrip(s) == s && Strip(s) == s
  {
  }

  /** Whitespace in front of a string never reaches the result of `lstrip`. */
  lemma {:induction false} LStripSpacePrefix(w: string, s: string)
    requires AllSpace(w)
    ensures LStrip(w + s) == LStrip(s)
  {
    if w != [] {
      assert (w + s)[0] == w[0] && (w + s)[1..] == w[1..] + s;
      LStripSpacePrefix(w[1..], s);
    } else {
      assert w + s == s;
    }
  }

  /** Nor does it reach the result of `strip`. */
  lemma StripSpacePrefix(w: string, s: string)
    requires AllSpace(w)
    ensures Strip(w + s) == Strip(s)
  {
    LStripSpacePrefix(w, s);
  }

  /** Stripping removes characters and never adds one. */
  lemma StripKeepsChar(s: string, c: char)
    requires c !in s
    ensures c !in LStrip(s) && c !in Strip(s)
  {
    LStripSpec(s);
    StripSpec(s);
    var t, r := LStrip(s), Strip(s);
    var i := |s| - |t|;
    assert t == s[i..];
    assert r == s[i..i + |r|];
    forall k | 0 <= k < |t| ensures t[k] != c {
      assert t[k] == s[i + k];
    }
    forall k | 0 <= k < |r| ensures r[k] != c {
      assert r[k] == s[i + k];
    }
  }

  /** `c * n` in Python. */
  function Repeat(c: char, n: nat): (r: string)
    ensures |r| == n && forall k :: 0 <= k < n ==> r[k] == c
  {
    if n == 0 then [] else Repeat(c, n - 1) + [c]
  }

  predicate OccursAt(s: string, sep: string, i: nat) {
    i + |sep| <= |s| && s[i..i + |sep|] == sep
  }

  lemma OccursShift(s: string, sep: string)
    requires s != []
    ensures forall k: nat :: 1 <= k ==> (OccursAt(s, sep, k) <==> OccursAt(s[1..], sep, k - 1))
  {
    forall k: nat | 1 <= k
      ensures OccursAt(s, sep, k) <==> OccursAt(s[1..], sep, k - 1)
    {
      if k + |sep| <= |s| {
        var a, b := s[k..k + |sep|], s[1..][k - 1..k - 1 + |sep|];
        forall m | 0 <= m < |sep| ensures a[m] == b[m] {
          assert b[m] == s[1..][k - 1 + m];
        }
        assert a == b;
      }
    }
  }

  /** `s.find(sep)`: the leftmost occurrence of `sep`, if any. */
  function Find(s: string, sep: string): (r: Option<nat>)
    requires |sep| > 0
    ensures r.Some? ==> OccursAt(s, sep, r.value)
    ensures r.Some? ==> forall k: nat :: k < r.value ==> !OccursAt(s, sep, k)
    ensures r.None? ==> forall k: nat :: !OccursAt(s, sep, k)
    decreases |s|
  {
    if |s| < |sep| then None
    else if s[..|sep|] == sep then Some(0)
    else
      OccursShift(s, sep);
      match Find(s[1..], sep)
      case None => None
      case Some(i) => Some(i + 1)
  }

  /** `sep.join(parts)`. */
  function Join(parts: seq<string>, sep: string): string {
    if |parts| == 0 then []
    else if |parts| == 1 then parts[0]
    else parts[0] + sep + Join(parts[1..], sep)
  }

  lemma JoinCons(h: string, t: seq<string>, sep: string)
    requires t != []
    ensures Join([h] + t, sep) == h + sep + Join(t, sep)
  {
    assert ([h] + t)[1..] == t;
  }

  lemma OccursInPrefix(s: string, sep: string, i: nat, k: nat)
    requires |sep| > 0 && i <= |s|
    ensures OccursAt(s[..i], sep, k) ==> OccursAt(s, sep, k) && k < i
  {
    if k + |sep| <= i {
      assert s[..i][k..k + |sep|] == s[k..k + |sep|];
    }
  }

  /** `s.split(sep)`: cut at every leftmost, non-overlapping occurrence of
      `sep`; there is always at least one piece. `SplitJoin` and
      `SplitPieces` say which pieces. */
  function Split(s: string, sep: string): (r: seq<string>)
    requires |sep| > 0
    ensures |r| >= 1
    decreases |s|
  {
    match Find(s, sep)
    case None => [s]
    case Some(i) => [s[..i]] + Split(s[i + |sep|..], sep)
  }

  /** The pieces joined with `sep` give back `s`. */
  lemma {:induction false} SplitJoin(s: string, sep: string)
    requires |sep| > 0
    ensures Join(Split(s, sep), sep) == s
    decreases |s|
  {
    if Find(s, sep).Some? {
      var i := Find(s, sep).value;
      var rest := s[i + |sep|..];
      CutAt(s, sep, i);
      SplitJoin(rest, sep);
      JoinCons(s[..i], Split(rest, sep), sep);
    }
  }

  /** An occurrence cuts `s` into what precedes it, `sep` and what
      follows. */
  lemma CutAt(s: string, sep: string, i: nat)
    requires OccursAt(s, sep, i)
    ensures s == s[..i] + sep + s[i + |sep|..]
  {
    assert s == s[..i] + s[i..i + |sep|] + s[i + |sep|..];
  }

  /** A piece before the first occurrence holds no occurrence. */
  lemma FindBefore(s: string, sep: string, i: nat)
    requires |sep| > 0 && Find(s, sep) == Some(i)
    ensures Find(s[..i], sep).None?
  {
    forall k: nat ensures !OccursAt(s[..i], sep, k) {
      OccursInPrefix(s, sep, i, k);
    }
  }

  /** No piece contains `sep`. */
  lemma {:induction false} SplitPieces(s: string, sep: string)
    requires |sep| > 0
    ensures forall k :: 0 <= k < |Split(s, sep)| ==> Find(Split(s, sep)[k], sep).None?
    decreases |s|
  {
    match Find(s, sep)
    case None =>
    case Some(i) =>
      var rest := s[i + |sep|..];
      SplitPieces(rest, sep);
      FindBefore(s, sep, i);
      var r := Split(s, sep);
      assert r == [s[..i]] + Split(rest, sep);
      forall k | 0 <= k < |r| ensures Find(r[k], sep).None? {
        if k > 0 {
          assert r[k] == Split(rest, sep)[k - 1];
        }
      }
  }

  /** `sep` occurs in `x + sep` only at the copy at its end. */
  predicate CleanBefore(x: string, sep: string) {
    forall j: nat :: j < |x| ==> !OccursAt(x + sep, sep, j)
  }

  lemma OccursInFront(x: string, sep: string, rest: string, j: nat)
    requires j < |x|
    ensures OccursAt(x + sep + rest, sep, j) == OccursAt(x + sep, sep, j)
  {
    assert (x + sep + rest)[j..j + |sep|] == (x + sep)[j..j + |sep|];
  }

  /** Splitting stops at the first separator after a clean piece. */
  lemma SplitCons(x: string, sep: string, rest: string)
    requires |sep| > 0 && CleanBefore(x, sep)
    ensures Split(x + sep + rest, sep) == [x] + Split(rest, sep)
  {
    var t := x + sep + rest;
    forall j: nat | j < |x| ensures !OccursAt(t, sep, j) {
      OccursInFront(x, sep, rest, j);
    }
    assert t[|x|..|x| + |sep|] == sep;
    assert OccursAt(t, sep, |x|);
    assert Find(t, sep) == Some(|x|);
    assert t[..|x|] == x && t[|x| + |sep|..] == rest;
  }

  /** `sep.join(ps).split(sep) == ps` when no piece can be mistaken for
      part of a separator. */
  lemma {:induction false} SplitJoinInverse(ps: seq<string>, sep: string)
    requires |sep| > 0 && ps != []
    requires forall k :: 0 <= k < |ps| - 1 ==> CleanBefore(ps[k], sep)
    requires Find(ps[|ps| - 1], sep).None?
    ensures Split(Join(ps, sep), sep) == ps
    decreases |ps|
  {
    if |ps| > 1 {
      var tail := ps[1..];
      forall k | 0 <= k < |tail| - 1 ensures CleanBefore(tail[k], sep) {
        assert tail[k] == ps[k + 1];
      }
      assert tail[|tail| - 1] == ps[|ps| - 1];
      SplitJoinInverse(tail, sep);
      assert Join(ps, sep) == ps[0] + sep + Join(tail, sep);
      SplitCons(ps[0], sep, Join(tail, sep));
      assert ps == [ps[0]] + tail;
    }
  }

  lemma {:induction false} JoinAppend(a: seq<string>, b: seq<string>, sep: string)
    requires a != [] && b != []
    ensures Join(a + b, sep) == Join(a, sep) + sep + Join(b, sep)
    decreases |a|
  {
    assert (a + b)[0] == a[0];
    if |a| == 1 {
      assert (a + b)[1..] == b;
    } else {
      JoinAppend(a[1..], b, sep);
      assert (a + b)[1..] == a[1..] + b;
      assert Join(a + b, sep) == a[0] + sep + (Join(a[1..], sep) + sep + Join(b, sep));
    }
  }

  lemma JoinFirst(ps: seq<string>, sep: string)
    requires ps != [] && ps[0] != []
    ensures Join(ps, sep) != [] && Join(ps, sep)[0] == ps[0][0]
  {
  }

  lemma {:induction false} JoinLast(ps: seq<string>, sep: string)
    requires ps != [] && ps[|ps| - 1] != []
    ensures var t := Join(ps, sep); t != [] && t[|t| - 1] == ps[|ps| - 1][|ps[|ps| - 1]| - 1]
    decreases |ps|
  {
    if |ps| > 1 {
      JoinLast(ps[1..], sep);
    }
  }

  /** The line feed a trailing empty entry leaves behind is stripped. */
  lemma StripFinalNewline(s: string)
    requires s != [] && IsStripped(s)
    ensures Strip(s + "\n") == s
  {
    assert (s + "\n")[..|s|] == s;
    assert LStrip(s + "\n") == s + "\n";
    StripStripped(s);
  }

  /** A string in which `"\n"` does not occur holds no line feed. */
  lemma NoNewline(s: string)
    requires Find(s, "\n").None?
    ensures '\n' !in s
  {
    forall k | 0 <= k < |s| ensures s[k] != '\n' {
      assert !OccursAt(s, "\n", k);
      assert s[k..k + 1] == [s[k]];
    }
  }

  /** The lines of `s.split('\n')` hold no line feed. */
  lemma SplitLinesNewlineFree(s: string)
    ensures forall k :: 0 <= k < |Split(s, "\n")| ==> '\n' !in Split(s, "\n")[k]
  {
    var ls := Split(s, "\n");
    SplitPieces(s, "\n");
    forall k | 0 <= k < |ls| ensures '\n' !in ls[k] {
      NoNewline(ls[k]);
    }
  }
}
