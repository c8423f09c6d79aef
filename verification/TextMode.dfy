/** Text as the standard library of the source's language treats it: universal
    newlines, line boundaries, white space and left-to-right replacement. */
module TextMode {
  import opened Sequences

  // ------------------------------------------------------------ newlines

  /** Text mode reads any of the three line endings as a newline. */
  function Translate(s: string): (t: string)
    ensures '\r' !in t
  {
    if s == [] then []
    else if s[0] != '\r' then [s[0]] + Translate(s[1..])
    else if |s| > 1 && s[1] == '\n' then ['\n'] + Translate(s[2..])
    else ['\n'] + Translate(s[1..])
  }

  lemma {:induction false} TranslateIsIdentityIff(s: string)
    ensures Translate(s) == s <==> '\r' !in s
  {
    if s != [] && '\r' !in s {
      assert s == [s[0]] + s[1..];
      TranslateIsIdentityIff(s[1..]);
    }
  }

  /** Each of the two other endings reads as one newline. */
  lemma {:induction false} EndingsBecomeNewlines(a: string, b: string)
    requires '\r' !in a
    ensures Translate(a + "\r\n" + b) == a + "\n" + Translate(b)
    ensures b == [] || b[0] != '\n' ==> Translate(a + "\r" + b) == a + "\n" + Translate(b)
  {
    var s, t := a + "\r\n" + b, a + "\r" + b;
    if a == [] {
      assert s[2..] == b && t[1..] == b;
    } else {
      assert a == [a[0]] + a[1..];
      assert s[1..] == a[1..] + "\r\n" + b && t[1..] == a[1..] + "\r" + b;
      EndingsBecomeNewlines(a[1..], b);
    }
  }

  // --------------------------------------------------------------- lines

  /** Boundaries beside the newline and the carriage return. */
  predicate IsExotic(c: char) {
    c == '\U{0B}' || c == '\U{0C}' || '\U{1C}' <= c <= '\U{1E}' || c == '\U{85}' || c == '\U{2028}' || c == '\U{2029}'
  }

  lemma ExoticAre(c: char)
    ensures IsExotic(c) <==> c as int in {11, 12, 28, 29, 30, 133, 8232, 8233}
  {
  }

  predicate IsBoundary(c: char) {
    c == '\n' || c == '\r' || IsExotic(c)
  }

  function LineEnd(s: string): (n: nat)
    ensures n <= |s| && (n < |s| ==> IsBoundary(s[n]))
    ensures forall i | 0 <= i < n :: !IsBoundary(s[i])
  {
    FirstIndex(s, IsBoundary)
  }

  function AfterLine(s: string, n: nat): string
    requires n < |s|
  {
    if s[n] == '\r' && n + 1 < |s| && s[n + 1] == '\n' then s[n + 2..] else s[n + 1..]
  }

  function SplitLines(s: string): (lines: seq<string>)
    ensures forall i, c | 0 <= i < |lines| && c in lines[i] :: !IsBoundary(c)
    decreases |s|
  {
    if s == [] then []
    else
      var n := LineEnd(s);
      if n == |s| then [s] else [s[..n]] + SplitLines(AfterLine(s, n))
  }

  function Unlines(lines: seq<string>): string {
    if lines == [] then "" else lines[0] + "\n" + Unlines(lines[1..])
  }

  lemma FirstLineEnds(line: string, rest: string)
    requires forall c <- line :: !IsBoundary(c)
    ensures var s := line + "\n" + rest;
            LineEnd(s) == |line| && s[..|line|] == line && AfterLine(s, |line|) == rest
  {
    var s := line + "\n" + rest;
    assert s[|line|] == '\n';
    assert forall i | 0 <= i < |line| :: s[i] == line[i];
  }

  lemma {:induction false} SplittingUndoesUnlines(lines: seq<string>)
    requires forall i, c | 0 <= i < |lines| && c in lines[i] :: !IsBoundary(c)
    ensures SplitLines(Unlines(lines)) == lines
  {
    if lines != [] {
      FirstLineEnds(lines[0], Unlines(lines[1..]));
      SplittingUndoesUnlines(lines[1..]);
    }
  }

  // --------------------------------------------------------- white space

  predicate IsSpace(c: char) {
    || '\t' <= c <= '\r' || '\U{1C}' <= c <= ' ' || c == '\U{85}' || c == '\U{A0}' || c == '\U{1680}'
    || '\U{2000}' <= c <= '\U{200A}' || c == '\U{2028}' || c == '\U{2029}' || c == '\U{202F}' || c == '\U{205F}'
        || c == '\U{3000}'
  }

  function StripLeft(s: string): (t: string)
    ensures forall c <- t :: c in s
  {
    if s != [] && IsSpace(s[0]) then StripLeft(s[1..]) else s
  }

  function StripRight(s: string): (t: string)
    ensures forall c <- t :: c in s
  {
    if s != [] && IsSpace(s[|s| - 1]) then StripRight(s[..|s| - 1]) else s
  }

  function Strip(s: string): (t: string)
    ensures forall c <- t :: c in s
    ensures s != [] && !IsSpace(s[0]) && !IsSpace(s[|s| - 1]) ==> t == s
  {
    StripRight(StripLeft(s))
  }

  // --------------------------------------------------------- replacement

  /** Every occurrence, left to right, none overlapping. */
  function Replace(s: string, old_: string, new_: string): (t: string)
    requires old_ != []
    ensures forall c <- t :: c in s || c in new_
    decreases |s|
  {
    if |s| < |old_| then s
    else if s[..|old_|] == old_ then new_ + Replace(s[|old_|..], old_, new_)
    else [s[0]] + Replace(s[1..], old_, new_)
  }

  lemma {:induction false} ReplacingACharDistributes(a: string, b: string, c: char, new_: string)
    ensures Replace(a + b, [c], new_) == Replace(a, [c], new_) + Replace(b, [c], new_)
    decreases |a|
  {
    if a == [] {
      assert a + b == b;
    } else {
      assert (a + b)[1..] == a[1..] + b;
      ReplacingACharDistributes(a[1..], b, c, new_);
    }
  }
}
