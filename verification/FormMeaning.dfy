/** What a URL-encoded text means, by splitting it, and that the parser inserts just that
    (section 17.13.4.1 of HTML 4.01). */
module FormMeaning {
  import opened Bytes
  import opened FormCodec

  /** Where c first stands in s, or the end. */
  function Find(s: bytes, c: byte): (i: nat)
    ensures i <= |s| && (forall j :: 0 <= j < i ==> s[j] != c) && (i < |s| ==> s[i] == c)
  {
    if s == [] || s[0] == c then 0 else 1 + Find(s[1..], c)
  }

  function DigitValue(b: byte): Option<nat> {
    if '0' as int <= b <= '9' as int then Some(b - '0' as int)
    else if 'a' as int <= b <= 'f' as int then Some(10 + b - 'a' as int)
    else if 'A' as int <= b <= 'F' as int then Some(10 + b - 'A' as int)
    else None
  }

  /** A plus sign is a space, a percent sign with two hexadecimal digits the byte they write, and every other byte,
      also in an incomplete escape, itself. */
  function Text(f: bytes): bytes
    decreases |f|
  {
    if f == [] then []
    else if f[0] == '+' as int then [' ' as int] + Text(f[1..])
    else if f[0] == '%' as int && |f| >= 3 && DigitValue(f[1]).Some? && DigitValue(f[2]).Some? then
      [16 * DigitValue(f[1]).value + DigitValue(f[2]).value] + Text(f[3..])
    else [f[0]] + Text(f[1..])
  }

  /** One piece between '&'s: key=value, or a key alone, which has no value. Later '='s belong to the value. */
  function Pair(piece: bytes): Insert {
    var i := Find(piece, '=' as int);
    if i == |piece| then Insert(Some(Text(piece)), None)
    else Insert(Some(Text(piece[..i])), Some(Text(piece[i + 1..])))
  }

  function Pairs(s: bytes): seq<Insert>
    decreases |s|
  {
    var i := Find(s, '&' as int);
    [Pair(s[..i])] + if i < |s| then Pairs(s[i + 1..]) else []
  }

  /** s ends in an escape that lacks a digit. */
  predicate EndsInEscape(s: bytes) {
    || (|s| >= 1 && s[|s| - 1] == '%' as int)
    || (|s| >= 2 && s[|s| - 2] == '%' as int && DigitValue(s[|s| - 1]).Some?)
  }

  /** s without it. */
  function Trimmed(s: bytes): (r: bytes)
    ensures r <= s
  {
    if |s| >= 1 && s[|s| - 1] == '%' as int then s[..|s| - 1]
    else if EndsInEscape(s) then s[..|s| - 2]
    else s
  }

  // ---- which fields the buffer holds ----

  /** f has an escape with one digit only, inside or at its end. */
  predicate LacksDigit(f: bytes) {
    exists i :: 0 <= i && i + 1 < |f| && f[i] == '%' as int && DigitValue(f[i + 1]).Some?
      && (i + 2 == |f| || DigitValue(f[i + 2]).None?)
  }

  /** The buffer holds f: its text is shorter than the buffer is, or, if no escape in it lacks a digit, than the
      buffer may grow. */
  predicate Holds(f: bytes, cap: nat, limit: nat) {
    |Text(f)| < cap || (!LacksDigit(f) && |Text(f)| < limit)
  }

  predicate HoldsPair(piece: bytes, cap: nat, limit: nat) {
    var i := Find(piece, '=' as int);
    Holds(piece[..i], cap, limit) && (i < |piece| ==> Holds(piece[i + 1..], cap, limit))
  }

  predicate HoldsAll(s: bytes, cap: nat, limit: nat)
    decreases |s|
  {
    var i := Find(s, '&' as int);
    HoldsPair(s[..i], cap, limit) && (i < |s| ==> HoldsAll(s[i + 1..], cap, limit))
  }

  // ---- reading one field ----

  predicate Ends(st: Var, b: byte) {
    (b == '&' as int && st != NoVar) || (b == '=' as int && st == InKey)
  }

  /** Nothing in f ends a field in the state st. */
  predicate Inside(st: Var, f: bytes) {
    forall i :: 0 <= i < |f| ==> !Ends(st, f[i])
  }

  lemma DigitIs(b: byte)
    ensures DigitValue(b) == HexVal(b)
  {
  }

  /** What holding the rest of a field takes, with done bytes of it read. */
  predicate HasRoom(done: nat, f: bytes, cap: nat, limit: nat) {
    done + |Text(f)| < cap || (!LacksDigit(f) && done + |Text(f)| < limit)
  }

  /** q is p with text read into its field, the buffer perhaps grown. */
  predicate Took(q: Parser, p: Parser, text: bytes) {
    q == p.(field := p.field + text, cap := q.cap) && |q.field| < q.cap && p.cap <= q.cap
  }

  lemma PutTakes(p: Parser, b: byte, limit: nat)
    requires |p.field| + 1 < p.cap || (|p.field| < p.cap && |p.field| + 1 < limit)
    ensures Took(Put(p, b, limit), p, [b])
  {
  }

  lemma SuffixHasRoom(p: Parser, p1: Parser, f: bytes, n: nat, text: bytes, limit: nat)
    requires n <= |f| && HasRoom(|p.field|, f, p.cap, limit) && Took(p1, p, text)
    requires Text(f) == text + Text(f[n..])
    ensures HasRoom(|p1.field|, f[n..], p1.cap, limit)
  {
    hide Text;
    if LacksDigit(f[n..]) {
      var i :| 0 <= i && i + 1 < |f[n..]| && f[n..][i] == '%' as int && DigitValue(f[n..][i + 1]).Some?
        && (i + 2 == |f[n..]| || DigitValue(f[n..][i + 2]).None?);
      assert f[n + i] == '%' as int && f[n + i + 1] == f[n..][i + 1];
      assert i + 2 < |f[n..]| ==> f[n + i + 2] == f[n..][i + 2];
      assert LacksDigit(f);
    }
  }

  /** A byte that starts no escape. */
  lemma ReadPlain(p: Parser, f: bytes, rest: bytes, limit: nat)
    requires p.hex == NoHex && |p.field| < p.cap && f != [] && !Ends(p.st, f[0]) && f[0] != '%' as int
    ensures var b: byte := if f[0] == '+' as int then ' ' as int else f[0];
      && Run(p, f + rest, limit) == Run(Put(p, b, limit), f[1..] + rest, limit)
      && Text(f) == [b] + Text(f[1..])
  {
    assert f + rest == [f[0]] + (f[1..] + rest);
    RunFirst(p, f[0], f[1..] + rest, limit);
  }

  /** A complete escape. */
  lemma ReadEscape(p: Parser, f: bytes, rest: bytes, limit: nat)
    requires p.hex == NoHex && |f| >= 3 && f[0] == '%' as int && DigitValue(f[1]).Some? && DigitValue(f[2]).Some?
    ensures var b: byte := 16 * DigitValue(f[1]).value + DigitValue(f[2]).value;
      && Run(p, f + rest, limit) == Run(Put(p, b, limit), f[3..] + rest, limit)
      && Text(f) == [b] + Text(f[3..])
  {
    DigitIs(f[1]);
    DigitIs(f[2]);
    var u := f[3..] + rest;
    assert f + rest == [f[0]] + ([f[1]] + ([f[2]] + u));
    RunFirst(p, f[0], [f[1]] + ([f[2]] + u), limit);
    var p1 := p.(hex := Hex0);
    RunFirst(p1, f[1], [f[2]] + u, limit);
    var p2 := p.(hex := Hex1(DigitValue(f[1]).value, f[1]));
    RunFirst(p2, f[2], u, limit);
    assert p2.(hex := NoHex) == p;
  }

  /** A percent sign in front of what is no digit. */
  lemma ReadPercent(p: Parser, f: bytes, rest: bytes, limit: nat)
    requires p.hex == NoHex && f != [] && f[0] == '%' as int
    requires f[1..] + rest != [] && DigitValue((f[1..] + rest)[0]).None?
    ensures Run(p, f + rest, limit) == Run(Put(p, '%' as int, limit), f[1..] + rest, limit)
    ensures Text(f) == ['%' as int] + Text(f[1..])
  {
    var u := f[1..] + rest;
    DigitIs(u[0]);
    assert f + rest == [f[0]] + u;
    RunFirst(p, f[0], u, limit);
    RunLiteral(p.(hex := Hex0), u, limit);
    assert Literal(p.(hex := Hex0), limit) == Put(p, '%' as int, limit) by {
      assert p.field + ['%' as int] + [] == p.field + ['%' as int];
    }
    if |f| > 1 {
      assert u[0] == f[1];
    }
  }

  /** A percent sign and one digit in front of what is no digit, with a place to spare. */
  lemma ReadHalf(p: Parser, f: bytes, rest: bytes, limit: nat)
    requires p.hex == NoHex && |f| >= 2 && f[0] == '%' as int && DigitValue(f[1]).Some? && |p.field| + 2 < p.cap
    requires f[2..] + rest != [] && DigitValue((f[2..] + rest)[0]).None?
    ensures Run(p, f + rest, limit) == Run(p.(field := p.field + [f[0], f[1]]), f[2..] + rest, limit)
    ensures Text(f) == [f[0], f[1]] + Text(f[2..])
  {
    var u := f[2..] + rest;
    DigitIs(f[1]);
    DigitIs(u[0]);
    assert f + rest == [f[0]] + ([f[1]] + u);
    RunFirst(p, f[0], [f[1]] + u, limit);
    RunFirst(p.(hex := Hex0), f[1], u, limit);
    var p2 := p.(hex := Hex1(DigitValue(f[1]).value, f[1]));
    RunLiteral(p2, u, limit);
    assert p.field + ['%' as int] + [f[1]] == p.field + [f[0], f[1]];
    assert Literal(p2, limit) == p.(field := p.field + [f[0], f[1]]);
    if |f| > 2 {
      assert u[0] == f[2];
    }
    assert f[1..][0] == f[1] && f[1..][1..] == f[2..];
  }

  /** The start of a field: n of its bytes are read, as text. */
  lemma ReadStart(p: Parser, f: bytes, rest: bytes, limit: nat) returns (n: nat, p1: Parser, text: bytes)
    requires p.hex == NoHex && |p.field| < p.cap && f != [] && Inside(p.st, f) && HasRoom(|p.field|, f, p.cap, limit)
    requires if rest == [] then !EndsInEscape(f) else DigitValue(rest[0]).None?
    ensures 0 < n <= |f| && Took(p1, p, text) && Text(f) == text + Text(f[n..])
    ensures Run(p, f + rest, limit) == Run(p1, f[n..] + rest, limit)
  {
    hide Run;
    if f[0] != '%' as int {
      ReadPlain(p, f, rest, limit);
      n, text := 1, [if f[0] == '+' as int then ' ' as int else f[0]];
      p1 := Put(p, text[0], limit);
      PutTakes(p, text[0], limit);
    } else if |f| >= 3 && DigitValue(f[1]).Some? && DigitValue(f[2]).Some? {
      ReadEscape(p, f, rest, limit);
      n, text := 3, [16 * DigitValue(f[1]).value + DigitValue(f[2]).value];
      p1 := Put(p, text[0], limit);
      PutTakes(p, text[0], limit);
    } else if |f| >= 2 && DigitValue(f[1]).Some? {
      NoDigitNext(f, 2, rest);
      assert LacksDigit(f) by {
        assert f[0] == '%' as int && DigitValue(f[0 + 1]).Some? && (0 + 2 == |f| || DigitValue(f[0 + 2]).None?);
      }
      assert |Text(f)| >= 2 by { HalfText(f); }
      ReadHalf(p, f, rest, limit);
      n, text := 2, [f[0], f[1]];
      p1 := p.(field := p.field + [f[0], f[1]]);
    } else {
      NoDigitNext(f, 1, rest);
      ReadPercent(p, f, rest, limit);
      n, text := 1, ['%' as int];
      p1 := Put(p, '%' as int, limit);
      PutTakes(p, '%' as int, limit);
    }
  }

  lemma HalfText(f: bytes)
    requires |f| >= 2 && f[0] == '%' as int && DigitValue(f[1]).Some? && (|f| == 2 || DigitValue(f[2]).None?)
    ensures |Text(f)| >= 2
  {
    assert f[1..][0] == f[1];
  }

  /** What follows a field is no digit. */
  lemma NoDigitNext(f: bytes, n: nat, rest: bytes)
    requires n <= |f| && (n < |f| ==> DigitValue(f[n]).None?)
    requires n == |f| ==> rest != [] && DigitValue(rest[0]).None?
    ensures f[n..] + rest != [] && DigitValue((f[n..] + rest)[0]).None?
  {
  }

  /** Reading the field f, in front of no digit or the end of the text. */
  lemma {:induction false} ReadField(p: Parser, f: bytes, rest: bytes, limit: nat) returns (q: Parser)
    requires p.hex == NoHex && |p.field| < p.cap && Inside(p.st, f) && HasRoom(|p.field|, f, p.cap, limit)
    requires if rest == [] then !EndsInEscape(f) else DigitValue(rest[0]).None?
    ensures Run(p, f + rest, limit) == Run(q, rest, limit) && Took(q, p, Text(f))
    decreases |f|
  {
    hide Run, LacksDigit, HasRoom;
    if f == [] {
      assert f + rest == rest && p.field + [] == p.field;
      q := p;
    } else {
      var n, p1, text := ReadStart(p, f, rest, limit);
      SuffixHasRoom(p, p1, f, n, text, limit);
      q := ReadField(p1, f[n..], rest, limit);
      assert p.field + text + Text(f[n..]) == p.field + (text + Text(f[n..]));
    }
  }

  // ---- reading a text ----

  /** What may follow: nothing, or the start of an escape. */
  predicate Tail(tail: bytes) {
    || tail == []
    || tail == ['%' as int]
    || (|tail| == 2 && tail[0] == '%' as int && DigitValue(tail[1]).Some?)
  }

  predicate KeyState(p: Parser) {
    p.st == InKey && p.hex == NoHex && p.field == [] && p.cap > 0
  }

  lemma StepAmp(p: Parser, rest: bytes, limit: nat)
    requires p.hex == NoHex && p.st != NoVar
    ensures Run(p, ['&' as int] + rest, limit) ==
      Run(if p.st == InKey then EndField(p, Insert(Some(p.field), None)).(key := p.key)
          else EndField(p, Insert(p.key, Some(p.field))), rest, limit)
  {
    RunFirst(p, '&' as int, rest, limit);
  }

  lemma StepEquals(p: Parser, rest: bytes, limit: nat)
    requires p.hex == NoHex && p.st == InKey
    ensures Run(p, ['=' as int] + rest, limit) == Run(p.(st := InVal, key := Some(p.field), field := []), rest, limit)
  {
    RunFirst(p, '=' as int, rest, limit);
  }

  lemma HoldsHasRoom(f: bytes, cap: nat, cap': nat, limit: nat)
    requires Holds(f, cap, limit) && cap <= cap'
    ensures HasRoom(0, f, cap', limit)
  {
  }

  /** Reading a piece: a state that is about to make the piece's insert. */
  lemma ReadPiece(p: Parser, piece: bytes, rest: bytes, limit: nat) returns (q: Parser)
    requires KeyState(p) && HoldsPair(piece, p.cap, limit) && '&' as int !in piece
    requires if rest == [] then !EndsInEscape(piece) else DigitValue(rest[0]).None?
    ensures Run(p, piece + rest, limit) == Run(q, rest, limit)
    ensures q.st != NoVar && q.hex == NoHex && q.out == p.out && p.cap <= q.cap && |q.field| < q.cap
    ensures Pair(piece) == if q.st == InKey then Insert(Some(q.field), None) else Insert(q.key, Some(q.field))
  {
    hide Run, LacksDigit, Text, HasRoom, Holds;
    var i := Find(piece, '=' as int);
    HoldsHasRoom(piece[..i], p.cap, p.cap, limit);
    if i == |piece| {
      assert piece[..i] == piece;
      q := ReadField(p, piece, rest, limit);
      assert [] + Text(piece) == Text(piece);
    } else {
      var value := piece[i + 1..];
      var k := ReadField(p, piece[..i], piece[i..] + rest, limit);
      assert piece[..i] + (piece[i..] + rest) == piece + rest;
      assert piece[i..] + rest == ['=' as int] + (value + rest);
      StepEquals(k, value + rest, limit);
      assert [] + Text(piece[..i]) == Text(piece[..i]) && [] + Text(value) == Text(value);
      var v := k.(st := InVal, key := Some(k.field), field := []);
      HoldsHasRoom(value, p.cap, v.cap, limit);
      q := ReadField(v, value, rest, limit);
    }
  }

  lemma RunTail(q: Parser, tail: bytes, limit: nat)
    requires q.hex == NoHex && Tail(tail)
    ensures Run(q, tail, limit) == q.(hex := Run(q, tail, limit).hex)
  {
    if |tail| == 1 {
      assert tail[1..] == [];
    } else if |tail| == 2 {
      DigitIs(tail[1]);
      assert tail == [tail[0]] + [tail[1]];
      RunFirst(q, tail[0], [tail[1]], limit);
      assert [tail[1]][1..] == [];
    }
  }

  lemma {:induction false} HoldsMore(s: bytes, cap: nat, cap': nat, limit: nat)
    requires HoldsAll(s, cap, limit) && cap <= cap'
    ensures HoldsAll(s, cap', limit)
    decreases |s|
  {
    hide LacksDigit, Text;
    var i := Find(s, '&' as int);
    if i < |s| {
      HoldsMore(s[i + 1..], cap, cap', limit);
    }
  }

  /** Reading a piece and the separator after it. */
  lemma ReadPieceAmp(p: Parser, piece: bytes, rest: bytes, limit: nat) returns (r: Parser)
    requires KeyState(p) && HoldsPair(piece, p.cap, limit) && '&' as int !in piece
    ensures Run(p, piece + (['&' as int] + rest), limit) == Run(r, rest, limit)
    ensures KeyState(r) && r.out == p.out + [Pair(piece)] && p.cap <= r.cap
  {
    hide Run, HoldsPair, Pair;
    var q := ReadPiece(p, piece, ['&' as int] + rest, limit);
    StepAmp(q, rest, limit);
    r := if q.st == InKey then EndField(q, Insert(Some(q.field), None)).(key := q.key)
         else EndField(q, Insert(q.key, Some(q.field)));
  }

  lemma ReadLastPiece(p: Parser, piece: bytes, tail: bytes, limit: nat)
    requires KeyState(p) && HoldsPair(piece, p.cap, limit) && '&' as int !in piece
    requires Tail(tail) && (tail == [] ==> !EndsInEscape(piece))
    ensures Finish(Run(p, piece + tail, limit), false) == p.out + [Pair(piece)]
  {
    hide Run, HoldsPair, Pair, EndsInEscape;
    var q := ReadPiece(p, piece, tail, limit);
    RunTail(q, tail, limit);
  }

  lemma SuffixEscape(s: bytes, n: nat)
    requires n <= |s| && EndsInEscape(s[n..])
    ensures EndsInEscape(s)
  {
  }

  lemma SplitAt(s: bytes, i: nat, tail: bytes)
    requires i < |s|
    ensures s + tail == s[..i] + ([s[i]] + (s[i + 1..] + tail))
  {
  }

  lemma PairsFrom(s: bytes, out: seq<Insert>)
    ensures var i := Find(s, '&' as int);
      out + Pairs(s) == out + [Pair(s[..i])] + if i < |s| then Pairs(s[i + 1..]) else []
  {
    hide Find, Pair;
    var i := Find(s, '&' as int);
    Regroup(out, [Pair(s[..i])], if i < |s| then Pairs(s[i + 1..]) else []);
  }

  lemma Regroup(out: seq<Insert>, first: seq<Insert>, more: seq<Insert>)
    ensures out + (first + more) == out + first + more
  {
  }

  /** Reading s, in front of an escape that does not get complete. */
  lemma {:induction false} ReadAll(p: Parser, s: bytes, tail: bytes, limit: nat)
    requires KeyState(p) && HoldsAll(s, p.cap, limit) && Tail(tail) && (tail == [] ==> !EndsInEscape(s))
    ensures Finish(Run(p, s + tail, limit), false) == p.out + Pairs(s)
    decreases |s|
  {
    hide Run, HoldsPair, Pair, Pairs, EndsInEscape, Finish, Tail, KeyState;
    PairsFrom(s, p.out);
    var i := Find(s, '&' as int);
    if i == |s| {
      assert s[..i] == s;
      ReadLastPiece(p, s, tail, limit);
    } else {
      var more := s[i + 1..];
      SplitAt(s, i, tail);
      var r := ReadPieceAmp(p, s[..i], more + tail, limit);
      HoldsMore(more, p.cap, r.cap, limit);
      if tail == [] && EndsInEscape(more) {
        SuffixEscape(s, i + 1);
      }
      ReadAll(r, more, tail, limit);
    }
  }

  lemma TrimmedTail(s: bytes)
    ensures Tail(s[|Trimmed(s)|..]) && s == Trimmed(s) + s[|Trimmed(s)|..]
    ensures s[|Trimmed(s)|..] == [] <==> !EndsInEscape(s)
  {
  }

  lemma EscapeIs(s: bytes, n: nat)
    ensures CutInEscape(s, 0) <==> EndsInEscape(s)
    ensures CutInEscape(s, n) ==> EndsInEscape(s)
  {
    if |s| > 0 {
      DigitIs(s[|s| - 1]);
    }
  }

  /** The inserts for a text are its pairs, whatever the text and wherever it is cut, as long as no cut falls inside a
      final unfinished escape and the buffer holds the fields. The unfinished escape itself is dropped. */
  lemma ParsesPairs(chunks: seq<bytes>, cap: nat, limit: nat)
    requires |chunks| > 0 && cap > 0 && HoldsAll(Trimmed(Concat(chunks)), cap, limit)
    requires |chunks| == 1 || !CutInEscape(Concat(chunks), |chunks[|chunks| - 1]|)
    ensures Outcome(Init(cap), chunks, limit) == Pairs(Trimmed(Concat(chunks)))
  {
    hide Run, Pairs, HoldsAll;
    var s := Concat(chunks);
    TrimmedTail(s);
    ReadAll(Init(cap), Trimmed(s), s[|Trimmed(s)|..], limit);
    ChunkIndependence(chunks, cap, limit);
    assert [] + Pairs(Trimmed(s)) == Pairs(Trimmed(s));
  }

  /** One field without separators, as cgi_decode reads it. */
  lemma DecodesText(s: bytes, cap: nat, limit: nat)
    requires cap > 0 && Holds(Trimmed(s), cap, limit)
    ensures var p := Run(Init(cap).(st := NoVar), s, limit); p.drops == 0 && p.field == Text(Trimmed(s))
  {
    hide Run, LacksDigit, Text, HasRoom, Holds;
    var p, f := Init(cap).(st := NoVar), Trimmed(s);
    TrimmedTail(s);
    HoldsHasRoom(f, cap, cap, limit);
    var q := ReadField(p, f, s[|f|..], limit);
    RunTail(q, s[|f|..], limit);
    assert [] + Text(f) == Text(f);
  }
}
