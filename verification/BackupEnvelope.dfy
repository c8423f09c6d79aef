/** The envelope in front of a dump: one readable line, a card, then the dump.
    Two readers open it, one on the whole file and one on a bounded head. */
module BackupEnvelope {
  import opened Outcomes
  import opened Sequences

  newtype byte = x: int | 0 <= x < 256

  type Bytes = seq<byte>

  const SPACE: byte := 32
  const NEWLINE: byte := 10
  const UNDERSCORE: byte := 95
  /** "PLATFORM-BACKUP/1" in ASCII. */
  const MAGIC: Bytes := [80, 76, 65, 84, 70, 79, 82, 77, 45, 66, 65, 67, 75, 85, 80, 47, 49]
  const MAX_CARD: nat := 65536
  const FIRST_READ: nat := 17 + 32
  const HEAD_LIMIT: nat := 17 + 32 + 65536 + 64

  datatype Card = Card(fields: map<string, string>)

  /** What the JSON reader makes of a body: nothing, an object, or a value that
      is not one. */
  datatype Decoded = NotJson | NotAnObject | Object(card: Card)

  /** Reading what was written gives the card. */
  ghost predicate Inverts(encode: Card -> Bytes, decode: Bytes -> Decoded) {
    forall card :: decode(encode(card)) == Object(card)
  }

  // ------------------------------------------------------------ numbers

  predicate IsDigit(b: byte) {
    48 <= b <= 57
  }

  function Decimal(n: nat): (s: Bytes)
    ensures s != [] && forall b <- s :: IsDigit(b)
  {
    if n < 10 then [(48 + n) as byte] else Decimal(n / 10) + [(48 + n % 10) as byte]
  }

  /** Digits with single underscores between them. */
  function Digits(s: Bytes): Option<nat> {
    if s == [] || !IsDigit(s[|s| - 1]) then None
    else
      var last := (s[|s| - 1] - 48) as nat;
      if |s| == 1 then Some(last)
      else
        var rest: Option<nat> := Digits(if s[|s| - 2] == UNDERSCORE then s[..|s| - 2] else s[..|s| - 1]);
        if rest.Some? then Some(10 * rest.value + last) else None
  }

  predicate IsSpace(b: byte) {
    b == SPACE || 9 <= b <= 13
  }

  function Strip(s: Bytes): Bytes {
    if s == [] then []
    else if IsSpace(s[0]) then Strip(s[1..])
    else if IsSpace(s[|s| - 1]) then Strip(s[..|s| - 1])
    else s
  }

  /** `int` of a byte string. */
  function ParseInt(raw: Bytes): Option<int> {
    var s := Strip(raw);
    var signed := s != [] && (s[0] == 43 || s[0] == 45);
    var digits := Digits(if signed then s[1..] else s);
    if digits.None? then None
    else
      var magnitude: int := digits.value;
      Some(if signed && s[0] == 45 then -magnitude else magnitude)
  }

  lemma {:induction false} DecimalIsRead(n: nat)
    ensures Digits(Decimal(n)) == Some(n)
  {
    if n >= 10 {
      DecimalIsRead(n / 10);
      var s := Decimal(n);
      assert s[..|s| - 1] == Decimal(n / 10);
      assert s[|s| - 2] in Decimal(n / 10);
    }
  }

  /** The number as the header writes it, after one space. */
  lemma SpacedDecimalIsRead(n: nat)
    ensures ParseInt([SPACE] + Decimal(n)) == Some(n)
  {
    var digits := Decimal(n);
    DecimalIsRead(n);
    assert ([SPACE] + digits)[1..] == digits;
    assert digits[0] in digits && digits[|digits| - 1] in digits;
    assert Strip(digits) == digits;
    assert Strip([SPACE] + digits) == digits;
  }

  lemma CardLengthIsShort(n: nat)
    requires n <= MAX_CARD
    ensures |Decimal(n)| <= 5
  {
    assert n / 10 / 10 / 10 / 10 < 10;
    DecimalGrows(n);
    DecimalGrows(n / 10);
    DecimalGrows(n / 10 / 10);
    DecimalGrows(n / 10 / 10 / 10);
  }

  lemma DecimalGrows(n: nat)
    ensures |Decimal(n)| == if n < 10 then 1 else |Decimal(n / 10)| + 1
  {
  }

  // ------------------------------------------------------------- writing

  /** `render_envelope_header`; a card over the limit is refused. */
  function RenderHeader(encode: Card -> Bytes, card: Card): Option<Bytes> {
    var body := encode(card);
    if |body| > MAX_CARD then None else Some(MAGIC + [SPACE] + Decimal(|body|) + [NEWLINE] + body)
  }

  // ------------------------------------------------------------- reading

  datatype Fault = NoEnvelope | Malformed | TooLarge | Truncated | BadCard

  datatype Result<+T> = Read(value: T) | Fails(fault: Fault)

  /** Where the header line ends and how long the card after it is. */
  datatype Line = Line(newline: nat, length: nat)

  /** The card, if the dump carries one, and where its own bytes begin. */
  datatype Parts = Parts(card: Option<Card>, offset: nat)

  function Take(s: Bytes, n: nat): Bytes {
    if n <= |s| then s[..n] else s
  }

  function FindNewline(s: Bytes): (i: nat)
    ensures i <= |s| && (i < |s| ==> s[i] == NEWLINE)
    ensures forall j | 0 <= j < i :: s[j] != NEWLINE
  {
    FirstIndex(s, b => b == NEWLINE)
  }

  /** The header line, as both readers read it. */
  function Header(head: Bytes): (r: Result<Line>)
    requires MAGIC <= head
    ensures r.Read? ==> r.value.newline < |head| && r.value.length <= MAX_CARD
  {
    var newline := FindNewline(head);
    if newline == |head| then Fails(Malformed)
    else
      assert newline >= |MAGIC| by { assert forall i | 0 <= i < |MAGIC| :: head[i] == MAGIC[i] != NEWLINE; }
      var length := ParseInt(head[|MAGIC|..newline]);
      if length.None? then Fails(Malformed)
      else if length.value < 0 || length.value > MAX_CARD then Fails(TooLarge)
      else Read(Line(newline, length.value))
  }

  /** The card's bytes, which must all be there and be JSON. */
  function ReadBody(decode: Bytes -> Decoded, source: Bytes, newline: nat, length: nat): (r: Result<Decoded>)
    requires newline < |source|
    ensures r.Read? ==> newline + 1 + length <= |source| && !r.value.NotJson?
  {
    var body := Take(source[newline + 1..], length);
    if |body| != length then Fails(Truncated)
    else if decode(body).NotJson? then Fails(BadCard)
    else Read(decode(body))
  }

  /** `split_envelope`: the card, if there is one, and where the dump begins. */
  function SplitEnvelope(decode: Bytes -> Decoded, file: Bytes): (r: Result<Parts>)
    ensures r.Read? ==> r.value.offset <= |file|
  {
    var head := Take(file, FIRST_READ);
    if !(MAGIC <= head) then Read(Parts(None, 0))
    else
      match Header(head)
      case Fails(fault) => Fails(fault)
      case Read(Line(newline, length)) =>
        match ReadBody(decode, file, newline, length)
        case Fails(fault) => Fails(fault)
        case Read(Object(card)) => Read(Parts(Some(card), newline + 1 + length))
        case Read(_) => Read(Parts(None, newline + 1 + length))
  }

  /** `card_from_head`: a dump without a card cannot be imported. */
  function CardFromHead(decode: Bytes -> Decoded, head: Bytes): Result<Card> {
    if !(MAGIC <= head) then Fails(NoEnvelope)
    else
      match Header(head)
      case Fails(fault) => Fails(fault)
      case Read(Line(newline, length)) =>
        match ReadBody(decode, head, newline, length)
        case Fails(fault) => Fails(fault)
        case Read(Object(card)) => Read(card)
        case Read(_) => Fails(BadCard)
  }

  // -------------------------------------------------------------- claims

  lemma NewlineInPrefix(s: Bytes, n: nat)
    requires n <= |s| && FindNewline(s) < n
    ensures FindNewline(s[..n]) == FindNewline(s)
  {
    var i, j := FindNewline(s), FindNewline(s[..n]);
    assert s[..n][i] == NEWLINE;
    assert j < n && s[j] == NEWLINE;
  }

  /** A header read off any two heads that reach past its newline is the same. */
  lemma HeaderNeedsItsLineOnly(file: Bytes, n: nat, m: nat)
    requires n <= m <= |file| && MAGIC <= file[..n] && FindNewline(file[..m]) < n
    ensures MAGIC <= file[..m] && Header(file[..n]) == Header(file[..m])
  {
    assert file[..m][..n] == file[..n];
    NewlineInPrefix(file[..m], n);
    var newline := FindNewline(file[..n]);
    assert newline >= |MAGIC| ==> file[..n][|MAGIC|..newline] == file[..m][|MAGIC|..newline];
  }

  lemma RenderedHeaderIsRead(encode: Card -> Bytes, card: Card, rest: Bytes, n: nat)
    requires RenderHeader(encode, card).Some?
    requires var file := RenderHeader(encode, card).value + rest; FIRST_READ <= n <= |file| || n == |file|
    ensures var header, file := RenderHeader(encode, card).value, RenderHeader(encode, card).value + rest;
            && MAGIC <= file[..n]
            && Header(file[..n]) == Read(Line(|header| - |encode(card)| - 1, |encode(card)|))
  {
    var length := |encode(card)|;
    var digits := Decimal(length);
    CardLengthIsShort(length);
    var line := MAGIC + [SPACE] + digits;
    var file := RenderHeader(encode, card).value + rest;
    var head := file[..n];
    assert head[..|line|] == line && head[|line|] == NEWLINE;
    LineEndsAt(line, digits, head);
    assert head[|MAGIC|..|line|] == [SPACE] + digits;
    SpacedDecimalIsRead(length);
  }

  lemma LineEndsAt(line: Bytes, digits: Bytes, head: Bytes)
    requires line == MAGIC + [SPACE] + digits && (forall b <- digits :: IsDigit(b))
    requires |line| < |head| && head[..|line|] == line && head[|line|] == NEWLINE
    ensures FindNewline(head) == |line| && MAGIC <= head
  {
    assert MAGIC <= line <= head;
    forall i | 0 <= i < |line|
      ensures head[i] != NEWLINE
    {
      assert head[i] == line[i];
      if i < |MAGIC| {
        assert line[i] == MAGIC[i];
      } else if i > |MAGIC| {
        assert line[i] == digits[i - |MAGIC| - 1];
        assert IsDigit(line[i]);
      }
    }
  }

  lemma WrittenBodyIsRead(decode: Bytes -> Decoded, front: Bytes, body: Bytes, rest: Bytes)
    requires front != [] && !decode(body).NotJson?
    ensures ReadBody(decode, front + body + rest, |front| - 1, |body|) == Read(decode(body))
  {
    assert Take((front + body + rest)[|front|..], |body|) == body;
  }

  /** The bounded head holds the whole card. */
  lemma BodyIsInHead(decode: Bytes -> Decoded, file: Bytes, newline: nat, length: nat)
    requires newline < FIRST_READ && newline < |file| && length <= MAX_CARD
    ensures ReadBody(decode, Take(file, HEAD_LIMIT), newline, length) == ReadBody(decode, file, newline, length)
  {
    assert Take(Take(file, HEAD_LIMIT)[newline + 1..], length) == Take(file[newline + 1..], length);
  }

  /** Whenever the first read ends in the header line, both readers see the same
      header and the same body. */
  lemma ReadersSeeTheSame(file: Bytes)
    requires MAGIC <= Take(file, FIRST_READ) && FindNewline(Take(file, FIRST_READ)) < |Take(file, FIRST_READ)|
    ensures MAGIC <= Take(file, HEAD_LIMIT) && Header(Take(file, HEAD_LIMIT)) == Header(Take(file, FIRST_READ))
    ensures Header(Take(file, FIRST_READ)).Read? ==> Header(Take(file, FIRST_READ)).value.newline < FIRST_READ
  {
    var first, head := Take(file, FIRST_READ), Take(file, HEAD_LIMIT);
    var n, m := |first|, |head|;
    assert first == file[..n] && head == file[..m] && head[..n] == first;
    assert head[FindNewline(first)] == NEWLINE;
    HeaderNeedsItsLineOnly(file, n, m);
  }

  lemma RenderedEnvelopeIsRead(encode: Card -> Bytes, decode: Bytes -> Decoded, card: Card, dump: Bytes)
    requires Inverts(encode, decode) && RenderHeader(encode, card).Some?
    ensures var header := RenderHeader(encode, card).value;
            && SplitEnvelope(decode, header + dump) == Read(Parts(Some(card), |header|))
            && CardFromHead(decode, Take(header + dump, HEAD_LIMIT)) == Read(card)
  {
    var header, body := RenderHeader(encode, card).value, encode(card);
    var file, front := header + dump, MAGIC + [SPACE] + Decimal(|body|) + [NEWLINE];
    CardLengthIsShort(|body|);
    var n := if FIRST_READ <= |file| then FIRST_READ else |file|;
    RenderedHeaderIsRead(encode, card, dump, n);
    assert Take(file, FIRST_READ) == file[..n];
    ReadersSeeTheSame(file);
    assert file == front + body + dump;
    WrittenBodyIsRead(decode, front, body, dump);
    BodyIsInHead(decode, file, |front| - 1, |body|);
  }

  /** A header is rendered for every card of at most 65536 bytes and for no other;
      splitting a written file gives the card and the exact start of the dump, for
      every dump, and the bounded head gives the same card. */
  lemma WrittenEnvelopeIsRead(encode: Card -> Bytes, decode: Bytes -> Decoded, card: Card, dump: Bytes)
    requires Inverts(encode, decode)
    ensures RenderHeader(encode, card).Some? <==> |encode(card)| <= 65536
    ensures |encode(card)| <= 65536 ==>
              var header := RenderHeader(encode, card).value;
              && SplitEnvelope(decode, header + dump) == Read(Parts(Some(card), |header|))
              && (header + dump)[|header|..] == dump
              && CardFromHead(decode, Take(header + dump, HEAD_LIMIT)) == Read(card)
  {
    if |encode(card)| <= 65536 {
      RenderedEnvelopeIsRead(encode, decode, card, dump);
    }
  }

  /** On any file at all: the split finds a card exactly when the bounded head
      does and the header line ends within the first read; then both find the
      same one. */
  lemma ReadersAgreeIff(decode: Bytes -> Decoded, file: Bytes, card: Card)
    ensures SplitEnvelope(decode, file).Read? && SplitEnvelope(decode, file).value.card == Some(card)
            <==> CardFromHead(decode, Take(file, HEAD_LIMIT)) == Read(card) && NEWLINE in Take(file, FIRST_READ)
  {
    var first, head := Take(file, FIRST_READ), Take(file, HEAD_LIMIT);
    assert MAGIC <= first <==> MAGIC <= head by {
      assert head[..|first|] == first;
    }
    assert NEWLINE in first <==> FindNewline(first) < |first|;
    if MAGIC <= first && FindNewline(first) < |first| {
      ReadersSeeTheSame(file);
      if Header(first).Read? {
        BodyIsInHead(decode, file, Header(first).value.newline, Header(first).value.length);
      }
    }
  }

  /** The header line ends at `newline` and its number is `length`. */
  ghost predicate HeaderAt(file: Bytes, newline: nat, length: nat) {
    && 17 <= newline < |file| && file[newline] == NEWLINE && (forall j | 0 <= j < newline :: file[j] != NEWLINE)
    && ParseInt(file[17..newline]) == Some(length) && length <= 65536
  }

  /** Splitting any file with the magic, without the reads it is made of: it works
      exactly when the header line ends within the first 49 bytes, names a length
      of at most 65536 that is there, and what it names is JSON. */
  ghost predicate Splits(decode: Bytes -> Decoded, file: Bytes, newline: nat, length: nat) {
    && HeaderAt(file, newline, length) && newline < 49 && newline + 1 + length <= |file|
    && !decode(file[newline + 1..newline + 1 + length]).NotJson?
  }

  lemma SplitWorksIff(decode: Bytes -> Decoded, file: Bytes)
    requires MAGIC <= file
    ensures SplitEnvelope(decode, file).Read? <==>
            exists newline: nat, length: nat :: Splits(decode, file, newline, length)
  {
    if SplitEnvelope(decode, file).Read? {
      var Line(n, l) := Header(Take(file, FIRST_READ)).value;
      HeaderWasThere(file);
      assert Take(file[n + 1..], l) == file[n + 1..n + 1 + l];
      assert Splits(decode, file, n, l);
    }
    if newline: nat, length: nat :| Splits(decode, file, newline, length) {
      SplitFollowsHeader(decode, file, newline, length);
    }
  }

  /** The dump begins right after the card, which is there when it is an object. */
  lemma SplitFollowsHeader(decode: Bytes -> Decoded, file: Bytes, newline: nat, length: nat)
    requires MAGIC <= file && Splits(decode, file, newline, length)
    ensures var decoded := decode(file[newline + 1..newline + 1 + length]);
            SplitEnvelope(decode, file) ==
              Read(Parts(if decoded.Object? then Some(decoded.card) else None, newline + 1 + length))
  {
    HeaderIsFound(file, newline, length);
    assert Take(file[newline + 1..], length) == file[newline + 1..newline + 1 + length];
  }

  lemma HeaderWasThere(file: Bytes)
    requires MAGIC <= file && MAGIC <= Take(file, FIRST_READ) && Header(Take(file, FIRST_READ)).Read?
    ensures var line := Header(Take(file, FIRST_READ)).value;
            HeaderAt(file, line.newline, line.length) && line.newline < 49
  {
    var first := Take(file, FIRST_READ);
    var n := Header(first).value.newline;
    assert forall j | 0 <= j < |first| :: file[j] == first[j];
    assert forall j | 0 <= j < 17 :: file[j] == MAGIC[j] != NEWLINE;
    assert n >= 17;
    assert first[17..n] == file[17..n];
  }

  lemma HeaderIsFound(file: Bytes, newline: nat, length: nat)
    requires MAGIC <= file && HeaderAt(file, newline, length) && newline < 49
    ensures MAGIC <= Take(file, FIRST_READ) && Header(Take(file, FIRST_READ)) == Read(Line(newline, length))
  {
    var first := Take(file, FIRST_READ);
    assert first[newline] == NEWLINE && forall j | 0 <= j < newline :: first[j] == file[j];
    assert FindNewline(first) == newline;
    assert first[17..newline] == file[17..newline];
  }

  /** The magic, spelled out. */
  lemma MagicIsReadable()
    ensures |MAGIC| == 17 && forall i | 0 <= i < 17 :: MAGIC[i] as int == "PLATFORM-BACKUP/1"[i] as int
  {
  }

  /** A dump from before the envelope reports offset zero and cannot be
      imported. */
  lemma OldDumpsStartAtZero(decode: Bytes -> Decoded, file: Bytes)
    requires !(MAGIC <= file)
    ensures SplitEnvelope(decode, file) == Read(Parts(None, 0))
    ensures CardFromHead(decode, Take(file, HEAD_LIMIT)) == Fails(NoEnvelope)
  {
  }
}
