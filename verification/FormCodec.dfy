/** The URL-encoded form language of libahttp/cgi.C: what the encoder writes, and the parser as a state
    machine over single bytes. */
module FormCodec {
  import opened Bytes

  const AMP: byte := 38      // '&', CGI_SEPCHAR
  const EQUALS: byte := 61   // '=', CGI_BINDCHAR
  const PERCENT: byte := 37  // '%', CGI_HEXCHAR
  const PLUS: byte := 43     // '+', CGI_SPACECHAR
  const SPACE: byte := 32

  /** CGI_KEY, CGI_VAL, and CGI_NONE for a parse without internal state. */
  datatype Var = InKey | InVal | NoVar

  /** Inside an escape: after '%', or after '%' and one digit lch of value h. */
  datatype Hex = NoHex | Hex0 | Hex1(h: nat, lch: byte)

  /** One call of the table's insert; a missing string is NULL. */
  datatype Insert = Insert(key: Option<bytes>, val: Option<bytes>)

  /** A parser between two bytes: cap is the length of the scratch buffer that holds field, and drops
      counts the fields lost because they did not fit. */
  datatype Parser =
    Parser(st: Var, key: Option<bytes>, field: bytes, hex: Hex, cap: nat, out: seq<Insert>, drops: nat)

  /** The table lookup in HEXVALTAB. */
  function HexVal(b: byte): (r: Option<nat>)
    ensures r.Some? <==> 48 <= b <= 57 || 65 <= b <= 70 || 97 <= b <= 102
    ensures r.Some? ==> r.value < 16
  {
    if 48 <= b <= 57 then Some(b - 48)
    else if 65 <= b <= 70 then Some(b - 55)
    else if 97 <= b <= 102 then Some(b - 87)
    else None
  }

  /** The digit of value n, as printf writes it with %x or, in upper case, %X. */
  function HexDigit(n: nat, upper: bool): byte
    requires n < 16
  {
    if n < 10 then 48 + n else if upper then 55 + n else 87 + n
  }

  /** char_to_hex reads exactly the hexadecimal digits of either case, each with its value. */
  lemma HexDigits(b: byte, n: nat)
    ensures HexVal(b) == Some(n) <==> n < 16 && (b == HexDigit(n, false) || b == HexDigit(n, true))
  {
  }

  /** The check before every read: a full buffer doubles up to limit, and past it the field is dropped. */
  function Room(p: Parser, limit: nat): Parser {
    if |p.field| < p.cap then p
    else if p.cap < limit then p.(cap := Min(2 * p.cap, limit))
    else p.(field := [], drops := p.drops + 1)
  }

  function Put(p: Parser, b: byte, limit: nat): Parser {
    Room(p.(field := p.field + [b]), limit)
  }

  /** An escape that turns out not to be one: '%' and, if the buffer has room for it, the digit. */
  function Literal(p: Parser, limit: nat): Parser {
    var digit := if p.hex.Hex1? && |p.field| + 2 < p.cap && p.hex.lch != 0 then [p.hex.lch] else [];
    Room(p.(hex := NoHex, field := p.field + [PERCENT] + digit), limit)
  }

  function EndField(p: Parser, ins: Insert): Parser {
    p.(st := InKey, key := None, field := [], out := p.out + [ins])
  }

  function StepPlain(p: Parser, b: byte, limit: nat): Parser {
    if b == AMP && p.st == InKey then EndField(p, Insert(Some(p.field), None)).(key := p.key)
    else if b == AMP && p.st == InVal then EndField(p, Insert(p.key, Some(p.field)))
    else if b == EQUALS && p.st == InKey then p.(st := InVal, key := Some(p.field), field := [])
    else if b == PERCENT then p.(hex := Hex0)
    else Put(p, if b == PLUS then SPACE else b, limit)
  }

  function Step(p: Parser, b: byte, limit: nat): Parser {
    match p.hex
    case NoHex => StepPlain(p, b, limit)
    case Hex0 =>
      (match HexVal(b)
       case Some(t) => p.(hex := Hex1(t, b))
       case None => StepPlain(Literal(p, limit), b, limit))
    case Hex1(h, _) =>
      (match HexVal(b)
       case Some(t) => Put(p.(hex := NoHex), if 16 * h + t < 256 then 16 * h + t else 0, limit)
       case None => StepPlain(Literal(p, limit), b, limit))
  }

  function Run(p: Parser, s: bytes, limit: nat): Parser
    decreases |s|
  {
    if s == [] then p else Run(Step(p, s[0], limit), s[1..], limit)
  }

  lemma {:induction false} RunConcat(p: Parser, a: bytes, b: bytes, limit: nat)
    ensures Run(p, a + b, limit) == Run(Run(p, a, limit), b, limit)
    decreases |a|
  {
    if a == [] {
      assert a + b == b;
    } else {
      assert (a + b)[1..] == a[1..] + b;
      RunConcat(Step(p, a[0], limit), a[1..], b, limit);
    }
  }

  lemma RunSnoc(p: Parser, a: bytes, b: byte, limit: nat)
    ensures Run(p, a + [b], limit) == Step(Run(p, a, limit), b, limit)
  {
    RunConcat(p, a, [b], limit);
    assert [b][1..] == [];
  }

  lemma RunFirst(p: Parser, b: byte, rest: bytes, limit: nat)
    ensures Run(p, [b] + rest, limit) == Run(Step(p, b, limit), rest, limit)
  {
    assert ([b] + rest)[1..] == rest;
  }

  /** A byte that cannot belong to the escape is read again outside it. */
  lemma RunLiteral(p: Parser, s: bytes, limit: nat)
    requires p.hex != NoHex && s != [] && HexVal(s[0]) == None
    ensures Run(p, s, limit) == Run(Literal(p, limit), s, limit)
  {
  }

  /** A malformed escape, '%' with at most one digit and then no further one, reads as itself exactly when the
      buffer has, or without a digit can get, room for it and one byte more; else the digit, or the field, is lost. */
  lemma MalformedEscape(p: Parser, digit: bytes, limit: nat)
    requires p.hex == NoHex && |p.field| < p.cap
    requires |digit| == 0 || (|digit| == 1 && HexVal(digit[0]).Some?)
    ensures var q := Run(p, [PERCENT] + digit, limit);
      && q.hex != NoHex
      && (Literal(q, limit).field == p.field + [PERCENT] + digit <==>
          if digit == [] then |p.field| + 1 < p.cap || p.cap < limit else |p.field| + 2 < p.cap)
  {
    RunFirst(p, PERCENT, digit, limit);
    if |digit| == 1 {
      assert digit[1..] == [];
    }
    assert p.field + [PERCENT] + [] == p.field + [PERCENT];
  }

  /** "%4z" with a buffer of two bytes, which can grow to 100, reads as "%z"; with one of nine as itself. */
  lemma LostDigit()
    ensures Outcome(Init(2), [[PERCENT, 52, 122]], 100) == [Insert(Some([PERCENT, 122]), None)]
    ensures Outcome(Init(9), [[PERCENT, 52, 122]], 100) == [Insert(Some([PERCENT, 52, 122]), None)]
  {
    ReadThree(Init(2), 100);
    ReadThree(Init(9), 100);
    var small, large := Init(2).(hex := Hex1(4, 52)), Init(9).(hex := Hex1(4, 52));
    assert Literal(small, 100) == Init(2).(field := [PERCENT]);
    assert Literal(large, 100) == Init(9).(field := [PERCENT, 52]);
    assert Step(small, 122, 100).field == [PERCENT, 122];
    assert Step(large, 122, 100).field == [PERCENT, 52, 122];
  }

  lemma ReadThree(p: Parser, limit: nat)
    requires p.hex == NoHex
    ensures Run(p, [PERCENT, 52, 122], limit) == Step(Step(Step(p, PERCENT, limit), 52, limit), 122, limit)
  {
    assert [PERCENT, 52, 122] == [PERCENT] + ([52] + [122]);
    RunFirst(p, PERCENT, [52] + [122], limit);
    RunFirst(Step(p, PERCENT, limit), 52, [122], limit);
    assert [122][1..] == [];
  }

  lemma {:induction false} DropsGrow(p: Parser, s: bytes, limit: nat)
    ensures Run(p, s, limit).drops >= p.drops
    decreases |s|
  {
    if s != [] {
      DropsGrow(Step(p, s[0], limit), s[1..], limit);
    }
  }

  lemma RunNothing(p: Parser, limit: nat)
    ensures Run(p, [], limit) == p
  {
  }

  /** What EOF adds. When the parser was resumed inside an escape, the field is lost. */
  function Finish(p: Parser, resumedInEscape: bool): seq<Insert> {
    var s := if resumedInEscape then None else Some(p.field);
    p.out + [if p.st == InKey then Insert(s, None) else Insert(p.key, s)]
  }

  /** c leaves a parser that waits inside an escape inside that escape. */
  predicate StaysInEscape(h: Hex, c: bytes) {
    h != NoHex && (c == [] || (|c| == 1 && h == Hex0 && HexVal(c[0]).Some?))
  }

  /** The inserts made when the input comes in these chunks, with a WAIT at each cut and EOF at the end. */
  function Outcome(p: Parser, chunks: seq<bytes>, limit: nat): seq<Insert>
    requires |chunks| > 0
    decreases |chunks|
  {
    if |chunks| == 1 then Finish(Run(p, chunks[0], limit), StaysInEscape(p.hex, chunks[0]))
    else Outcome(Run(p, chunks[0], limit), chunks[1..], limit)
  }

  /** s ends inside an escape and its last n bytes do not reach back to the '%'. */
  predicate CutInEscape(s: bytes, n: nat) {
    || (|s| >= 1 && s[|s| - 1] == PERCENT && n == 0)
    || (|s| >= 2 && s[|s| - 2] == PERCENT && HexVal(s[|s| - 1]).Some? && n <= 1)
  }

  function Init(cap: nat): Parser {
    Parser(InKey, None, [], NoHex, cap, [], 0)
  }

  /** Whether the machine is inside an escape can be read off the last two bytes. */
  lemma {:induction false} HexBySuffix(p: Parser, s: bytes, limit: nat)
    requires p.hex == NoHex
    ensures Run(p, s, limit).hex == Hex0 <==> |s| >= 1 && s[|s| - 1] == PERCENT
    ensures Run(p, s, limit).hex.Hex1? <==> |s| >= 2 && s[|s| - 2] == PERCENT && HexVal(s[|s| - 1]).Some?
    decreases |s|
  {
    if s != [] {
      var a, b := s[..|s| - 1], s[|s| - 1];
      assert s == a + [b];
      HexBySuffix(p, a, limit);
      RunSnoc(p, a, b, limit);
    }
  }

  /** Reading chunk by chunk comes to reading all but the last chunk, then the last. */
  lemma {:induction false} OutcomeByLast(p: Parser, chunks: seq<bytes>, limit: nat)
    requires |chunks| > 0
    ensures var q := Run(p, Concat(chunks[..|chunks| - 1]), limit);
      Outcome(p, chunks, limit) == Outcome(q, [chunks[|chunks| - 1]], limit)
    decreases |chunks|
  {
    if |chunks| > 1 {
      var front, last := chunks[..|chunks| - 1], chunks[|chunks| - 1];
      var p1 := Run(p, chunks[0], limit);
      OutcomeByLast(p1, chunks[1..], limit);
      assert chunks[1..][..|chunks| - 2] == front[1..];
      RunConcat(p, chunks[0], Concat(front[1..]), limit);
    } else {
      assert chunks == [chunks[0]];
    }
  }

  /** Chunking never changes the inserted pairs, except when the input ends inside an escape and a cut
      falls inside that escape; then it always does. */
  lemma ChunkIndependence(chunks: seq<bytes>, cap: nat, limit: nat)
    requires |chunks| > 0
    ensures Outcome(Init(cap), chunks, limit) == Outcome(Init(cap), [Concat(chunks)], limit) <==>
      !(|chunks| >= 2 && CutInEscape(Concat(chunks), |chunks[|chunks| - 1]|))
  {
    var p, front, last := Init(cap), Concat(chunks[..|chunks| - 1]), chunks[|chunks| - 1];
    var q := Run(p, front, limit);
    OutcomeByLast(p, chunks, limit);
    ConcatSplit(chunks);
    RunConcat(p, front, last, limit);
    HexBySuffix(p, front, limit);
    StaysBySuffix(q, front, last);
    if |chunks| == 1 {
      assert chunks[..0] == [] && front == [];
      assert front + last == last && chunks == [last];
    }
    var a := Finish(Run(q, last, limit), StaysInEscape(q.hex, last));
    var b := Finish(Run(q, last, limit), false);
    assert Outcome(p, [Concat(chunks)], limit) == b;
    assert a[|a| - 1] == b[|b| - 1] <==> !StaysInEscape(q.hex, last);
  }

  /** And where a cut does fall inside it, what is lost is the last field alone: it is inserted as NULL. */
  lemma CutLosesLastField(chunks: seq<bytes>, cap: nat, limit: nat)
    requires |chunks| >= 2 && CutInEscape(Concat(chunks), |chunks[|chunks| - 1]|)
    ensures var cut, whole := Outcome(Init(cap), chunks, limit), Outcome(Init(cap), [Concat(chunks)], limit);
      var n := |whole|;
      && |cut| == n > 0 && cut[..n - 1] == whole[..n - 1]
      && cut[n - 1] == if whole[n - 1].val.None? then Insert(None, None) else Insert(whole[n - 1].key, None)
  {
    var p, front, last := Init(cap), Concat(chunks[..|chunks| - 1]), chunks[|chunks| - 1];
    var q := Run(p, front, limit);
    OutcomeByLast(p, chunks, limit);
    ConcatSplit(chunks);
    RunConcat(p, front, last, limit);
    HexBySuffix(p, front, limit);
    StaysBySuffix(q, front, last);
    RunState(p, front + last, limit);
  }

  lemma {:induction false} RunState(p: Parser, s: bytes, limit: nat)
    requires p.st != NoVar
    ensures Run(p, s, limit).st != NoVar
    decreases |s|
  {
    if s != [] {
      RunState(Step(p, s[0], limit), s[1..], limit);
    }
  }

  function OneMoreDrop(p: Parser): Parser {
    p.(drops := p.drops + 1)
  }

  lemma RoomDrops(p: Parser, limit: nat)
    ensures Room(OneMoreDrop(p), limit) == OneMoreDrop(Room(p, limit))
  {
  }

  lemma PlainDrops(p: Parser, b: byte, limit: nat)
    ensures StepPlain(OneMoreDrop(p), b, limit) == OneMoreDrop(StepPlain(p, b, limit))
  {
    hide Room;
    RoomDrops(p.(field := p.field + [if b == PLUS then SPACE else b]), limit);
  }

  lemma StepDrops(p: Parser, b: byte, limit: nat)
    ensures Step(OneMoreDrop(p), b, limit) == OneMoreDrop(Step(p, b, limit))
  {
    hide Room, StepPlain;
    if p.hex == NoHex {
      PlainDrops(p, b, limit);
    } else if HexVal(b).None? {
      var digit := if p.hex.Hex1? && |p.field| + 2 < p.cap && p.hex.lch != 0 then [p.hex.lch] else [];
      RoomDrops(p.(hex := NoHex, field := p.field + [PERCENT] + digit), limit);
      PlainDrops(Literal(p, limit), b, limit);
    } else if p.hex.Hex1? {
      var h := 16 * p.hex.h + HexVal(b).value;
      RoomDrops(p.(hex := NoHex, field := p.field + [if h < 256 then h else 0]), limit);
    }
  }

  /** How many fields were dropped has no influence. */
  lemma {:induction false} DropsIrrelevant(p: Parser, s: bytes, limit: nat)
    ensures Run(OneMoreDrop(p), s, limit) == OneMoreDrop(Run(p, s, limit))
    decreases |s|
  {
    hide Step, OneMoreDrop;
    if s != [] {
      StepDrops(p, s[0], limit);
      DropsIrrelevant(Step(p, s[0], limit), s[1..], limit);
    }
  }

  predicate Plain(s: bytes) {
    forall i :: 0 <= i < |s| ==> s[i] != '&' as int && s[i] != '=' as int && s[i] != '%' as int && s[i] != '+' as int
  }

  lemma {:induction false} FillField(p: Parser, s: bytes, limit: nat)
    requires p.hex == NoHex && Plain(s) && |p.field| < p.cap && |p.field| + |s| == p.cap && limit <= p.cap
    ensures Run(p, s, limit) == p.(field := [], drops := p.drops + 1)
    decreases |s|
  {
    if |s| > 1 {
      var q := Step(p, s[0], limit);
      assert q == p.(field := p.field + [s[0]]);
      FillField(q, s[1..], limit);
    } else {
      assert s[1..] == [];
    }
  }

  /** A field that fills a buffer that cannot grow is dropped, and what follows is read as if it stood alone. */
  lemma OverflowRestarts(s: bytes, more: bytes, cap: nat, limit: nat)
    requires Plain(s) && |s| == cap > 0 && limit <= cap
    ensures Outcome(Init(cap), [s + more], limit) == Outcome(Init(cap), [more], limit)
  {
    RunConcat(Init(cap), s, more, limit);
    FillField(Init(cap), s, limit);
    DropsIrrelevant(Init(cap), more, limit);
  }

  lemma StaysBySuffix(q: Parser, front: bytes, last: bytes)
    requires q.hex == Hex0 <==> |front| >= 1 && front[|front| - 1] == PERCENT
    requires q.hex.Hex1? <==> |front| >= 2 && front[|front| - 2] == PERCENT && HexVal(front[|front| - 1]).Some?
    ensures StaysInEscape(q.hex, last) <==> CutInEscape(front + last, |last|)
  {
    if last == [] {
      assert front + last == front;
    }
  }

  /** On a connection the end of input always comes as an event of its own, after a WAIT: then every
      chunking of every input gives the same inserts. */
  lemma ConnectionChunksIrrelevant(chunks: seq<bytes>, cap: nat, limit: nat)
    ensures Outcome(Init(cap), chunks + [[]], limit) == Outcome(Init(cap), [Concat(chunks), []], limit)
  {
    var cs, two := chunks + [[]], [Concat(chunks), []];
    OutcomeByLast(Init(cap), cs, limit);
    OutcomeByLast(Init(cap), two, limit);
    assert cs[..|chunks|] == chunks;
    assert two[..1] == [Concat(chunks)];
    assert Concat(two[..1]) == Concat(chunks) + Concat([]);
  }
}
