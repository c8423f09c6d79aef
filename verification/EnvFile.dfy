/** The environment file of decrypted secrets: what the writer renders, what the
    reader makes of it, and exactly which documents survive the trip. */
module EnvFile {
  import opened Outcomes
  import opened Sequences
  import opened TextMode

  // ---------------------------------------------------- the two chains

  /** The writer's five replacements. */
  function Escape(v: string): string {
    Replace(Replace(Replace(Replace(Replace(v, "\\", "\\\\"), "\"", "\\\""), "\n", "\\n"), "\r", "\\r"), "\t", "\\t")
  }

  /** The reader's five replacements. */
  function Unescape(s: string): (v: string)
    ensures forall c <- v :: c in s || IsSpecial(c) || c == '\\'
  {
    Replace(Replace(Replace(Replace(Replace(s, "\\t", "\t"), "\\r", "\r"), "\\n", "\n"), "\\\"", "\""), "\\\\", "\\")
  }

  /** The character that stands after the backslash for a control character or a
      quote. */
  function LetterOf(c: char): char {
    match c
    case '\t' => 't'
    case '\r' => 'r'
    case '\n' => 'n'
    case _ => c
  }

  predicate IsSpecial(c: char) {
    c == '\t' || c == '\r' || c == '\n' || c == '"'
  }

  predicate IsLetter(c: char) {
    c == 't' || c == 'r' || c == 'n'
  }

  function ControlOf(letter: char): char {
    match letter
    case 't' => '\t'
    case 'r' => '\r'
    case 'n' => '\n'
    case _ => letter
  }

  function EscapeChar(c: char): string {
    if c == '\\' then "\\\\" else if IsSpecial(c) then ['\\', LetterOf(c)] else [c]
  }

  /** One pass, character by character. */
  function Escaped(v: string): string {
    if v == [] then [] else EscapeChar(v[0]) + Escaped(v[1..])
  }

  lemma {:induction false} EscapeDistributes(a: string, b: string)
    ensures Escape(a + b) == Escape(a) + Escape(b)
  {
    ReplacingACharDistributes(a, b, '\\', "\\\\");
    var a1, b1 := Replace(a, "\\", "\\\\"), Replace(b, "\\", "\\\\");
    ReplacingACharDistributes(a1, b1, '"', "\\\"");
    var a2, b2 := Replace(a1, "\"", "\\\""), Replace(b1, "\"", "\\\"");
    ReplacingACharDistributes(a2, b2, '\n', "\\n");
    var a3, b3 := Replace(a2, "\n", "\\n"), Replace(b2, "\n", "\\n");
    ReplacingACharDistributes(a3, b3, '\r', "\\r");
    var a4, b4 := Replace(a3, "\r", "\\r"), Replace(b3, "\r", "\\r");
    ReplacingACharDistributes(a4, b4, '\t', "\\t");
  }

  /** The writer's chain is the single pass. */
  lemma {:induction false} EscapeIsOnePass(v: string)
    ensures Escape(v) == Escaped(v)
  {
    if v != [] {
      assert v == [v[0]] + v[1..];
      EscapeDistributes([v[0]], v[1..]);
      EscapeOfOne(v[0]);
      EscapeIsOnePass(v[1..]);
    }
  }

  /** Replacing one character in a string of at most two others. */
  lemma ReplaceInShort(s: string, c: char, new_: string)
    requires |s| <= 2
    ensures Replace(s, [c], new_) == (if |s| > 0 then if s[0] == c then new_ else [s[0]] else [])
                                     + (if |s| > 1 then if s[1] == c then new_ else [s[1]] else [])
  {
    if |s| == 2 {
      assert s[..1] == [s[0]] && s[1..] == [s[1]] && [s[1]][..1] == [s[1]] && s[1..][1..] == [];
    }
  }

  lemma EscapeOfOne(c: char)
    ensures Escape([c]) == EscapeChar(c)
  {
    ReplaceInShort([c], '\\', "\\\\");
    var s1 := Replace([c], "\\", "\\\\");
    assert s1 == if c == '\\' then "\\\\" else [c];
    ReplaceInShort(s1, '"', "\\\"");
    var s2 := Replace(s1, "\"", "\\\"");
    assert s2 == if c == '"' then "\\\"" else s1;
    ReplaceInShort(s2, '\n', "\\n");
    var s3 := Replace(s2, "\n", "\\n");
    assert s3 == if c == '\n' then "\\n" else s2;
    ReplaceInShort(s3, '\r', "\\r");
    var s4 := Replace(s3, "\r", "\\r");
    assert s4 == if c == '\r' then "\\r" else s3;
    ReplaceInShort(s4, '\t', "\\t");
  }

  // -------------------------------------- what the reader's chain computes

  const STAGED: set<char> := {'t', 'r', 'n', '"'}

  function Pending(p: bool): string {
    if p then "\\" else ""
  }

  /** The escaped value after the replacements for the letters in `done`.  The
      second half of an escaped backslash is held back (`p`): a letter in `done`
      right after it takes it along. */
  function Staged(done: set<char>, v: string, p: bool): string {
    if v == [] then Pending(p)
    else if v[0] == '\\' then Pending(p) + "\\" + Staged(done, v[1..], true)
    else if IsSpecial(v[0]) then
      Pending(p) + (if LetterOf(v[0]) in done then [v[0]] else ['\\', LetterOf(v[0])]) + Staged(done, v[1..], false)
    else if p && v[0] in done then [ControlOf(v[0])] + Staged(done, v[1..], false)
    else Pending(p) + [v[0]] + Staged(done, v[1..], false)
  }

  lemma {:induction false} NothingStaged(v: string, p: bool)
    ensures Staged({}, v, p) == Pending(p) + Escaped(v)
  {
    if v != [] {
      NothingStaged(v[1..], v[0] == '\\');
    }
  }

  /** Replacing after a front that does not match, and after one that does. */
  lemma FrontSkipped(x: char, rest: string, l: char, new_: string)
    requires x == '\\' ==> rest == [] || rest[0] != l
    ensures Replace([x] + rest, ['\\', l], new_) == [x] + Replace(rest, ['\\', l], new_)
  {
    var s := [x] + rest;
    assert s[1..] == rest;
    if |s| > 1 {
      assert s[..2] == [x, rest[0]];
    }
  }

  lemma FrontMatched(rest: string, l: char, new_: string)
    ensures Replace(['\\', l] + rest, ['\\', l], new_) == new_ + Replace(rest, ['\\', l], new_)
  {
    var s := ['\\', l] + rest;
    assert s[..2] == ['\\', l] && s[2..] == rest;
  }

  /** What one character becomes when nothing is pending. */
  function Token(done: set<char>, x: char): string {
    if IsSpecial(x) && LetterOf(x) !in done then ['\\', LetterOf(x)] else [x]
  }

  lemma TokenForm(done: set<char>, v: string)
    requires v != []
    ensures Staged(done, v, false) == Token(done, v[0]) + Staged(done, v[1..], v[0] == '\\')
  {
  }

  /** A pending half is either taken along or stands in front. */
  lemma PendingForm(done: set<char>, v: string)
    requires done <= STAGED && v != []
    ensures Staged(done, v, true) ==
            if IsLetter(v[0]) && v[0] in done then [ControlOf(v[0])] + Staged(done, v[1..], false)
            else "\\" + Staged(done, v, false)
  {
    var token, rest := Token(done, v[0]), Staged(done, v[1..], v[0] == '\\');
    TokenForm(done, v);
    assert "\\" + token + rest == "\\" + (token + rest);
  }

  lemma PendingHead(done: set<char>, v: string)
    requires done <= STAGED
    ensures Staged(done, v, true) != [] && Staged(done, v, true)[0] !in STAGED
  {
  }

  /** The step of `OneStage` without a pending half. */
  lemma OneToken(done: set<char>, l: char, v: string)
    requires done <= STAGED && l in STAGED - done && v != []
    requires Replace(Staged(done, v[1..], v[0] == '\\'), ['\\', l], [ControlOf(l)]) ==
            Staged(done + {l}, v[1..], v[0] == '\\')
    ensures Replace(Staged(done, v, false), ['\\', l], [ControlOf(l)]) == Staged(done + {l}, v, false)
  {
    var b := v[0] == '\\';
    TokenForm(done, v);
    TokenForm(done + {l}, v);
    if b {
      PendingHead(done, v[1..]);
    }
    TokenStep(done, l, v[0], Staged(done, v[1..], b), Staged(done + {l}, v[1..], b));
  }

  lemma TokenStep(done: set<char>, l: char, x: char, rest: string, rest': string)
    requires done <= STAGED && l in STAGED - done
    requires x == '\\' ==> rest != [] && rest[0] !in STAGED
    requires Replace(rest, ['\\', l], [ControlOf(l)]) == rest'
    ensures Replace(Token(done, x) + rest, ['\\', l], [ControlOf(l)]) == Token(done + {l}, x) + rest'
  {
    if IsSpecial(x) && LetterOf(x) !in done {
      if LetterOf(x) == l {
        FrontMatched(rest, l, [ControlOf(l)]);
      } else {
        OtherLetterSkipped(LetterOf(x), rest, l, [ControlOf(l)]);
      }
    } else {
      FrontSkipped(x, rest, l, [ControlOf(l)]);
    }
  }

  lemma OtherLetterSkipped(letter: char, rest: string, l: char, new_: string)
    requires letter != l && letter != '\\'
    ensures Replace(['\\', letter] + rest, ['\\', l], new_) == ['\\', letter] + Replace(rest, ['\\', l], new_)
  {
    assert ['\\', letter] + rest == ['\\'] + ([letter] + rest);
    FrontSkipped('\\', [letter] + rest, l, new_);
    FrontSkipped(letter, rest, l, new_);
  }

  /** The step of `OneStage` with one: kept in front, or taken along. */
  lemma PendingIsKept(done: set<char>, l: char, v: string)
    requires done <= STAGED && l in STAGED - done && v != []
    requires !IsLetter(v[0]) || v[0] !in done + {l}
    requires Replace(Staged(done, v, false), ['\\', l], [ControlOf(l)]) == Staged(done + {l}, v, false)
    ensures Replace(Staged(done, v, true), ['\\', l], [ControlOf(l)]) == Staged(done + {l}, v, true)
  {
    PendingForm(done, v);
    PendingForm(done + {l}, v);
    TokenForm(done, v);
    FrontSkipped('\\', Staged(done, v, false), l, [ControlOf(l)]);
  }

  lemma PendingIsTaken(done: set<char>, l: char, v: string)
    requires done <= STAGED && l in STAGED - done && v != []
    requires IsLetter(v[0]) && v[0] in done + {l}
    requires Replace(Staged(done, v[1..], false), ['\\', l], [ControlOf(l)]) == Staged(done + {l}, v[1..], false)
    ensures Replace(Staged(done, v, true), ['\\', l], [ControlOf(l)]) == Staged(done + {l}, v, true)
  {
    PendingForm(done, v);
    PendingForm(done + {l}, v);
    TokenForm(done, v);
    TakenStep(l, v[0], Staged(done, v[1..], false), Staged(done + {l}, v[1..], false));
  }

  lemma TakenStep(l: char, x: char, rest: string, rest': string)
    requires IsLetter(x) && Replace(rest, ['\\', l], [ControlOf(l)]) == rest'
    ensures x == l ==> Replace("\\" + ([x] + rest), ['\\', l], [ControlOf(l)]) == [ControlOf(x)] + rest'
    ensures x != l ==> Replace([ControlOf(x)] + rest, ['\\', l], [ControlOf(l)]) == [ControlOf(x)] + rest'
  {
    if x == l {
      assert "\\" + ([x] + rest) == ['\\', l] + rest;
      FrontMatched(rest, l, [ControlOf(l)]);
    } else {
      FrontSkipped(ControlOf(x), rest, l, [ControlOf(l)]);
    }
  }

  /** One replacement of the reader moves the staged form one letter on. */
  lemma {:induction false} OneStage(done: set<char>, l: char, v: string, p: bool)
    requires done <= STAGED && l in STAGED - done
    ensures Replace(Staged(done, v, p), ['\\', l], [ControlOf(l)]) == Staged(done + {l}, v, p)
  {
    if v != [] {
      OneStage(done, l, v[1..], v[0] == '\\');
      OneToken(done, l, v);
      if p && IsLetter(v[0]) && v[0] in done + {l} {
        PendingIsTaken(done, l, v);
      } else if p {
        PendingIsKept(done, l, v);
      }
    }
  }

  /** The value with every `t`, `r` or `n` right after a backslash turned into
      its control character. */
  function Mangle(v: string, p: bool): string {
    if v == [] then [] else [if p && IsLetter(v[0]) then ControlOf(v[0]) else v[0]] + Mangle(v[1..], v[0] == '\\')
  }

  /** The last replacement, of doubled backslashes. */
  lemma {:induction false} LastStage(v: string)
    ensures Replace(Staged(STAGED, v, false), "\\\\", "\\") == Mangle(v, false)
    decreases |v|
  {
    if v != [] {
      TokenForm(STAGED, v);
      if v[0] != '\\' {
        FrontSkipped(v[0], Staged(STAGED, v[1..], false), '\\', "\\");
        LastStage(v[1..]);
      } else if |v| > 1 && IsLetter(v[1]) {
        LastStage(v[2..]);
        LastTaken(v);
      } else {
        LastStage(v[1..]);
        LastKept(v);
      }
    }
  }

  lemma LastTaken(v: string)
    requires |v| > 1 && v[0] == '\\' && IsLetter(v[1])
    requires Replace(Staged(STAGED, v[2..], false), "\\\\", "\\") == Mangle(v[2..], false)
    ensures Replace(Staged(STAGED, v, false), "\\\\", "\\") == Mangle(v, false)
  {
    var rest, c := Staged(STAGED, v[2..], false), ControlOf(v[1]);
    assert v[1..][1..] == v[2..];
    TokenForm(STAGED, v);
    PendingForm(STAGED, v[1..]);
    assert Staged(STAGED, v, false) == ['\\'] + ([c] + rest);
    FrontSkipped('\\', [c] + rest, '\\', "\\");
    FrontSkipped(c, rest, '\\', "\\");
    assert Mangle(v, false) == ['\\'] + ([c] + Mangle(v[2..], false));
  }

  lemma LastKept(v: string)
    requires v != [] && v[0] == '\\' && !(|v| > 1 && IsLetter(v[1]))
    requires Replace(Staged(STAGED, v[1..], false), "\\\\", "\\") == Mangle(v[1..], false)
    ensures Replace(Staged(STAGED, v, false), "\\\\", "\\") == Mangle(v, false)
  {
    var w := v[1..];
    TokenForm(STAGED, v);
    PendingStands(w);
    DoubledFront(Staged(STAGED, w, false));
  }

  lemma DoubledFront(rest: string)
    ensures Replace("\\" + ("\\" + rest), "\\\\", "\\") == "\\" + Replace(rest, "\\\\", "\\")
  {
    assert "\\" + ("\\" + rest) == ['\\', '\\'] + rest;
    FrontMatched(rest, '\\', "\\");
  }

  lemma PendingStands(w: string)
    requires w == [] || !IsLetter(w[0])
    ensures Staged(STAGED, w, true) == "\\" + Staged(STAGED, w, false) && Mangle(w, true) == Mangle(w, false)
  {
    if w != [] {
      PendingForm(STAGED, w);
    }
  }

  /** For every value, what reading it back gives. */
  lemma ReadingBackMangles(v: string)
    ensures Unescape(Escape(v)) == Mangle(v, false)
  {
    EscapeIsOnePass(v);
    NothingStaged(v, false);
    assert Escape(v) == Staged({}, v, false);
    StagesMangle(v);
  }

  lemma StagesMangle(v: string)
    ensures Unescape(Staged({}, v, false)) == Mangle(v, false)
  {
    var s1, s2 := Staged({'t'}, v, false), Staged({'t', 'r'}, v, false);
    var s3, s4 := Staged({'t', 'r', 'n'}, v, false), Staged(STAGED, v, false);
    StageOf({}, 't', v, "\\t", "\t", {'t'});
    StageOf({'t'}, 'r', v, "\\r", "\r", {'t', 'r'});
    StageOf({'t', 'r'}, 'n', v, "\\n", "\n", {'t', 'r', 'n'});
    StageOf({'t', 'r', 'n'}, '"', v, "\\\"", "\"", STAGED);
    LastStage(v);
    UnescapeByStages(Staged({}, v, false), s1, s2, s3, s4, Mangle(v, false));
  }

  lemma UnescapeByStages(s0: string, s1: string, s2: string, s3: string, s4: string, v: string)
    requires Replace(s0, "\\t", "\t") == s1 && Replace(s1, "\\r", "\r") == s2 && Replace(s2, "\\n", "\n") == s3
    requires Replace(s3, "\\\"", "\"") == s4 && Replace(s4, "\\\\", "\\") == v
    ensures Unescape(s0) == v
  {
  }

  lemma StageOf(done: set<char>, l: char, v: string, old_: string, new_: string, done': set<char>)
    requires done <= STAGED && l in STAGED - done && done' == done + {l}
    requires old_ == ['\\', l] && new_ == [ControlOf(l)]
    ensures Replace(Staged(done, v, false), old_, new_) == Staged(done', v, false)
  {
    OneStage(done, l, v, false);
  }

  /** No backslash directly followed by `t`, `r` or `n`. */
  predicate NoLetterAfterBackslash(v: string) {
    forall i | 0 <= i < |v| - 1 :: v[i] == '\\' ==> !IsLetter(v[i + 1])
  }

  lemma {:induction false} MangleIsIdentityIff(v: string, p: bool)
    ensures Mangle(v, p) == v <==> NoLetterAfterBackslash(v) && !(p && v != [] && IsLetter(v[0]))
  {
    if v != [] {
      var rest := v[1..];
      assert v == [v[0]] + rest;
      MangleIsIdentityIff(rest, v[0] == '\\');
      assert Mangle(v, p)[1..] == Mangle(rest, v[0] == '\\');
      PairsStep(v);
    }
  }

  lemma PairsStep(v: string)
    requires v != []
    ensures NoLetterAfterBackslash(v) <==>
            NoLetterAfterBackslash(v[1..]) && !(v[0] == '\\' && |v| > 1 && IsLetter(v[1]))
  {
    var rest := v[1..];
    if NoLetterAfterBackslash(v) {
      forall i | 0 <= i < |rest| - 1 && rest[i] == '\\'
        ensures !IsLetter(rest[i + 1])
      {
        assert v[i + 1] == '\\' && rest[i + 1] == v[i + 2];
      }
    }
    if NoLetterAfterBackslash(rest) && !(v[0] == '\\' && |v| > 1 && IsLetter(v[1])) {
      forall i | 0 <= i < |v| - 1 && v[i] == '\\'
        ensures !IsLetter(v[i + 1])
      {
        if i > 0 {
          assert rest[i - 1] == '\\' && rest[i] == v[i + 1];
        }
      }
    }
  }

  /** A single pass that takes one backslash with the character after it. */
  function OnePassUnescape(s: string): string
    decreases |s|
  {
    if s == [] then []
    else if s[0] == '\\' && |s| > 1 then [ControlOf(s[1])] + OnePassUnescape(s[2..])
    else [s[0]] + OnePassUnescape(s[1..])
  }

  lemma {:induction false} OnePassInverts(v: string)
    ensures OnePassUnescape(Escaped(v)) == v
  {
    if v != [] {
      var e := Escaped(v);
      OnePassInverts(v[1..]);
      assert v == [v[0]] + v[1..];
      if v[0] == '\\' || IsSpecial(v[0]) {
        assert e[2..] == Escaped(v[1..]);
      } else {
        assert e[1..] == Escaped(v[1..]);
      }
    }
  }

  /** The reader's five replacements do the work of the single pass on exactly
      the values without such a pair, and only those come back. */
  lemma ChainIsOnePassIff(v: string)
    ensures Unescape(Escape(v)) == OnePassUnescape(Escape(v)) <==> NoLetterAfterBackslash(v)
    ensures Unescape(Escape(v)) == v <==> NoLetterAfterBackslash(v)
  {
    ReadingBackMangles(v);
    MangleIsIdentityIff(v, false);
    EscapeIsOnePass(v);
    OnePassInverts(v);
  }

  // ------------------------------------------------------------ the file

  predicate IsNameStart(c: char) {
    'A' <= c <= 'Z' || 'a' <= c <= 'z' || c == '_'
  }

  predicate IsName(key: string) {
    key != [] && IsNameStart(key[0]) && forall c <- key :: IsNameStart(c) || '0' <= c <= '9'
  }

  function Line(key: string, value: string): string {
    key + "=\"" + Escape(value) + "\""
  }

  /** A value of the decrypted document. */
  datatype Value = Text(text: string) | Flag(on: bool) | Number(shown: string) | Nested

  /** The text the writer escapes; a value that is not scalar has none. */
  function TextOf(v: Value): Option<string> {
    match v
    case Text(text) => Some(text)
    case Flag(on) => Some(if on then "true" else "false")
    case Number(shown) => Some(shown)
    case Nested => None
  }

  predicate Renderable(keys: seq<string>, document: map<string, Value>)
    requires forall key <- keys :: key in document
  {
    forall key <- keys :: IsName(key) && TextOf(document[key]).Some?
  }

  /** The texts of a document the writer accepts. */
  function Texts(document: map<string, Value>): map<string, string> {
    map key <- document | TextOf(document[key]).Some? :: TextOf(document[key]).value
  }

  /** Some order of all keys; the writer uses the sorted one. */
  ghost predicate Enumerates(keys: seq<string>, document: map<string, string>) {
    && (forall i, j | 0 <= i < j < |keys| :: keys[i] != keys[j])
    && (forall key :: key in keys <==> key in document)
  }

  function Lines(keys: seq<string>, document: map<string, string>): seq<string>
    requires forall key <- keys :: key in document
  {
    seq(|keys|, i requires 0 <= i < |keys| => Line(keys[i], document[keys[i]]))
  }

  function Join(lines: seq<string>): string {
    if lines == [] then "" else if |lines| == 1 then lines[0] else lines[0] + "\n" + Join(lines[1..])
  }

  /** `render_env_file`; a name that is not one is refused, and so is a value
      that is not scalar. */
  method RenderEnvFile(keys: seq<string>, document: map<string, Value>) returns (text: Option<string>)
    requires forall key <- keys :: key in document
    ensures text.Some? <==> Renderable(keys, document)
    ensures text.Some? <==> forall key <- keys :: IsName(key) && !document[key].Nested?
    ensures text.Some? ==> text.value == Join(Lines(keys, Texts(document))) + "\n"
  {
    var lines: seq<string> := [];
    var i := 0;
    while i < |keys|
      invariant 0 <= i <= |keys| && |lines| == i
      invariant forall j | 0 <= j < i :: IsName(keys[j]) && TextOf(document[keys[j]]).Some?
                  && lines[j] == Line(keys[j], TextOf(document[keys[j]]).value)
    {
      var key := keys[i];
      var shown := TextOf(document[key]);
      if !IsName(key) || shown.None? {
        assert key in keys;
        return None;
      }
      lines := lines + [Line(key, shown.value)];
      i := i + 1;
    }
    assert lines == Lines(keys, Texts(document));
    return Some(Join(lines) + "\n");
  }

  /** Position of the first equals sign. */
  function Equals(line: string): (i: nat)
    ensures i <= |line| && (i < |line| ==> line[i] == '=')
    ensures forall j | 0 <= j < i :: line[j] != '='
  {
    FirstIndex(line, c => c == '=')
  }

  function Unquote(value: string): (v: string)
    ensures forall c <- v :: c in value || IsSpecial(c) || c == '\\'
  {
    if |value| >= 2 && value[0] == '"' && value[|value| - 1] == '"' then Unescape(value[1..|value| - 1]) else value
  }

  /** What one line says, if anything. */
  function ParseLine(raw: string): (entry: Option<(string, string)>)
    ensures entry.Some? ==> forall c <- entry.value.1 :: c in raw || IsSpecial(c) || c == '\\'
  {
    var line := Strip(raw);
    var i := Equals(line);
    if line == [] || line[0] == '#' || i == |line| then None
    else
      var key := Strip(line[..i]);
      if IsName(key) then Some((key, Unquote(Strip(line[i + 1..])))) else None
  }

  /** The later line of a name wins. */
  function ReadLines(lines: seq<string>): map<string, string> {
    if lines == [] then map[]
    else
      var before, entry := ReadLines(lines[..|lines| - 1]), ParseLine(lines[|lines| - 1]);
      if entry.Some? then before[entry.value.0 := entry.value.1] else before
  }

  /** `read_env_file`. */
  method ReadEnvFile(text: string) returns (values: map<string, string>)
    ensures values == ReadLines(SplitLines(Translate(text)))
  {
    values := map[];
    var lines := SplitLines(Translate(text));
    var i := 0;
    while i < |lines|
      invariant 0 <= i <= |lines| && values == ReadLines(lines[..i])
    {
      assert lines[..i + 1][..i] == lines[..i];
      var entry := ParseLine(lines[i]);
      if entry.Some? {
        values := values[entry.value.0 := entry.value.1];
      }
      i := i + 1;
    }
    assert lines[..i] == lines;
  }

  // ------------------------------------------------------- the round trip

  predicate NoExotic(v: string) {
    forall c <- v :: !IsExotic(c)
  }

  lemma {:induction false} EscapedHasNoNewline(v: string)
    requires NoExotic(v)
    ensures forall c <- Escaped(v) :: !IsBoundary(c)
  {
    if v != [] {
      EscapedHasNoNewline(v[1..]);
    }
  }

  lemma LineHasNoBoundary(key: string, value: string)
    requires IsName(key) && NoExotic(value)
    ensures forall c <- Line(key, value) :: !IsBoundary(c)
  {
    EscapeIsOnePass(value);
    EscapedHasNoNewline(value);
  }

  lemma {:induction false} FirstEquals(key: string, rest: string)
    requires '=' !in key
    ensures Equals(key + "=" + rest) == |key|
  {
    var line := key + "=" + rest;
    assert forall j | 0 <= j < |key| :: line[j] == key[j];
    assert line[|key|] == '=';
  }

  lemma NamesAreUnspaced(key: string)
    requires IsName(key)
    ensures Strip(key) == key && '=' !in key && key[0] != '#' && !IsSpace(key[0])
  {
    assert key[|key| - 1] in key;
  }

  lemma QuotedIsUnquoted(e: string)
    ensures var quoted := "\"" + e + "\"";
            Strip(quoted) == quoted && Unquote(quoted) == Unescape(e)
  {
    var quoted := "\"" + e + "\"";
    assert quoted[0] == '"' && quoted[|quoted| - 1] == '"';
    assert quoted[1..|quoted| - 1] == e;
  }

  lemma QuotedLineParses(key: string, quoted: string)
    requires IsName(key) && quoted != [] && !IsSpace(quoted[|quoted| - 1])
    ensures ParseLine(key + "=" + quoted) == Some((key, Unquote(Strip(quoted))))
  {
    var line := key + "=" + quoted;
    NamesAreUnspaced(key);
    assert line[0] == key[0] && line[|line| - 1] == quoted[|quoted| - 1];
    assert Strip(line) == line;
    FirstEquals(key, quoted);
    assert line[..|key|] == key && line[|key| + 1..] == quoted;
  }

  /** Lines an operator wrote: an unquoted value is taken as it stands, a comment
      says nothing, and neither does a line without an equals sign. */
  lemma PlainLineParses(key: string, value: string)
    requires IsName(key) && value != [] && value[0] != '"' && !IsSpace(value[0]) && !IsSpace(value[|value| - 1])
    ensures ParseLine(key + "=" + value) == Some((key, value))
  {
    QuotedLineParses(key, value);
    assert Strip(value) == value;
  }

  lemma OtherLinesSayNothing(line: string)
    requires '=' !in line || Strip(line) == [] || Strip(line)[0] == '#'
    ensures ParseLine(line) == None
  {
  }

  lemma LineParses(key: string, value: string)
    requires IsName(key)
    ensures ParseLine(Line(key, value)) == Some((key, Mangle(value, false)))
  {
    var quoted := "\"" + Escape(value) + "\"";
    assert Line(key, value) == key + "=" + quoted;
    QuotedIsUnquoted(Escape(value));
    QuotedLineParses(key, quoted);
    ReadingBackMangles(value);
  }

  lemma {:induction false} JoinIsUnlines(lines: seq<string>)
    requires lines != []
    ensures Join(lines) + "\n" == Unlines(lines)
  {
    if |lines| > 1 {
      var rest := lines[1..];
      JoinIsUnlines(rest);
      calc {
        Join(lines) + "\n";
        (lines[0] + "\n" + Join(rest)) + "\n";
        lines[0] + "\n" + (Join(rest) + "\n");
        lines[0] + "\n" + Unlines(rest);
      }
    } else {
      assert Unlines(lines) == lines[0] + "\n" + Unlines([]);
    }
  }

  lemma {:induction false} UnlinesHasNoReturn(lines: seq<string>)
    requires forall i, c | 0 <= i < |lines| && c in lines[i] :: !IsBoundary(c)
    ensures '\r' !in Unlines(lines)
  {
    if lines != [] {
      UnlinesHasNoReturn(lines[1..]);
      assert IsBoundary('\r') && '\r' !in lines[0];
    }
  }

  /** The reader gets the writer's lines back; an empty document is one blank
      line. */
  lemma LinesComeBack(lines: seq<string>)
    requires forall i, c | 0 <= i < |lines| && c in lines[i] :: !IsBoundary(c)
    ensures SplitLines(Translate(Join(lines) + "\n")) == if lines == [] then [""] else lines
  {
    var whole := if lines == [] then [""] else lines;
    JoinIsUnlines(whole);
    assert Join([""]) == Join([]);
    UnlinesHasNoReturn(whole);
    TranslateIsIdentityIff(Unlines(whole));
    SplittingUndoesUnlines(whole);
  }

  lemma BlankLineSaysNothing()
    ensures ReadLines([""]) == ReadLines([])
  {
    assert ParseLine("") == None;
    assert [""][..0] == [];
  }

  lemma {:induction false} ReadingTheLines(keys: seq<string>, document: map<string, string>)
    requires forall key <- keys :: key in document && IsName(key)
    ensures ReadLines(Lines(keys, document)).Keys == set key <- keys
    ensures forall key <- keys :: ReadLines(Lines(keys, document))[key] == Mangle(document[key], false)
  {
    if keys != [] {
      var n := |keys| - 1;
      ReadingTheLines(keys[..n], document);
      assert Lines(keys, document)[..n] == Lines(keys[..n], document);
      LineParses(keys[n], document[keys[n]]);
      assert keys == keys[..n] + [keys[n]];
    }
  }

  lemma ParsedHasNoExotic(raw: string)
    requires forall c <- raw :: !IsBoundary(c)
    ensures ParseLine(raw).Some? ==> NoExotic(ParseLine(raw).value.1)
  {
  }

  lemma {:induction false} ReadValuesHaveNoExotic(lines: seq<string>)
    requires forall i, c | 0 <= i < |lines| && c in lines[i] :: !IsBoundary(c)
    ensures forall key <- ReadLines(lines) :: NoExotic(ReadLines(lines)[key])
  {
    if lines != [] {
      var n := |lines| - 1;
      ReadValuesHaveNoExotic(lines[..n]);
      ParsedHasNoExotic(lines[n]);
    }
  }

  /** What the reader makes of a rendered document. */
  function ReadBack(keys: seq<string>, document: map<string, string>): map<string, string>
    requires forall key <- keys :: key in document
  {
    ReadLines(SplitLines(Translate(Join(Lines(keys, document)) + "\n")))
  }

  lemma RenderedLinesAreWhole(keys: seq<string>, document: map<string, string>)
    requires forall key <- keys :: key in document && IsName(key) && NoExotic(document[key])
    ensures ReadBack(keys, document) == ReadLines(Lines(keys, document))
  {
    forall i, c | 0 <= i < |keys| && c in Lines(keys, document)[i]
      ensures !IsBoundary(c)
    {
      assert keys[i] in keys;
      LineHasNoBoundary(keys[i], document[keys[i]]);
    }
    LinesComeBack(Lines(keys, document));
    if keys == [] {
      BlankLineSaysNothing();
    }
  }

  /** Without stray line boundaries every value comes back mangled, and nothing
      else comes back. */
  lemma ReadBackMangles(keys: seq<string>, document: map<string, string>)
    requires Enumerates(keys, document) && forall key <- keys :: IsName(key) && NoExotic(document[key])
    ensures ReadBack(keys, document) == map key <- document :: Mangle(document[key], false)
  {
    RenderedLinesAreWhole(keys, document);
    ReadingTheLines(keys, document);
    assert (set key <- keys) == document.Keys;
    AllMangled(ReadLines(Lines(keys, document)), document);
  }

  lemma AllMangled(read: map<string, string>, document: map<string, string>)
    requires read.Keys == document.Keys && forall key <- document :: read[key] == Mangle(document[key], false)
    ensures read == map key <- document :: Mangle(document[key], false)
  {
  }

  /** Reading a rendered document gives it back if and only if no value holds a
      backslash directly followed by `t`, `r` or `n`, nor a line boundary the
      writer does not escape. */
  lemma RoundTripIff(keys: seq<string>, document: map<string, string>)
    requires Enumerates(keys, document) && forall key <- keys :: IsName(key)
    ensures ReadBack(keys, document) == document
            <==> forall key <- document :: NoLetterAfterBackslash(document[key]) && NoExotic(document[key])
  {
    ReadValuesHaveNoExotic(SplitLines(Translate(Join(Lines(keys, document)) + "\n")));
    assert forall key <- ReadBack(keys, document) :: NoExotic(ReadBack(keys, document)[key]);
    if forall key <- document :: NoExotic(document[key]) {
      ReadBackMangles(keys, document);
      forall key | key in document
        ensures Mangle(document[key], false) == document[key] <==> NoLetterAfterBackslash(document[key])
      {
        MangleIsIdentityIff(document[key], false);
      }
    }
  }

  /** What a document of any scalar values comes back as: truth values as words,
      texts and numbers as the writer saw them, mangled. */
  lemma ScalarsComeBack(keys: seq<string>, document: map<string, Value>, key: string)
    requires (forall i, j | 0 <= i < j < |keys| :: keys[i] != keys[j]) && forall k :: k in keys <==> k in document
    requires forall k <- keys :: IsName(k) && !document[k].Nested?
    requires forall k <- keys :: (document[k].Text? ==> NoExotic(document[k].text))
                                 && (document[k].Number? ==> NoExotic(document[k].shown))
    requires key in keys
    ensures key in ReadBack(keys, Texts(document))
    ensures var read := ReadBack(keys, Texts(document))[key];
            match document[key]
            case Flag(on) => read == if on then "true" else "false"
            case Text(text) => read == Mangle(text, false)
            case Number(shown) => read == Mangle(shown, false)
            case Nested => false
  {
    ReadBackMangles(keys, Texts(document));
    WordsStay();
  }

  lemma WordsStay()
    ensures Mangle("true", false) == "true" && Mangle("false", false) == "false"
  {
    MangleIsIdentityIff("true", false);
    MangleIsIdentityIff("false", false);
  }

  /** The smallest document that does not survive: a backslash and a `t` come
      back as a backslash and a tab. */
  lemma BackslashTComesBackAsTab()
    ensures ReadBack(["K"], map["K" := "\\t"]) == map["K" := "\\\t"] != map["K" := "\\t"]
  {
    var document := map["K" := "\\t"];
    assert Mangle("\\t"[1..], true) == "\t";
    assert Mangle("\\t", false) == "\\\t";
    ReadBackMangles(["K"], document);
  }
}
